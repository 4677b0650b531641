/** Driving one NSS call through its scratch buffer, and joining the group lists of several modules. */
module NssLookup {
  import opened Wrappers

  const TRYAGAIN := -2
  const SUCCESS := 1
  const ERANGE := 34
  const MAX_BUFLEN: nat := 0x100_0000

  datatype Result<+T> = Good(value: T) | Bad(status: int, errno: int)

  /** What a module answers, given the length of the buffer. */
  datatype Reply = Reply(status: int, errno: int)

  /** The one request for a larger buffer. */
  predicate Asks(r: Reply) { r.status == TRYAGAIN && r.errno == ERANGE }

  /** The length after `n` doublings. An empty buffer doubles from one. */
  function Grown(len: nat, n: nat): nat
    decreases n
  {
    if n == 0 then len else Grown(2 * if len == 0 then 1 else len, n - 1)
  }

  /** The answer that stands is the module's at the first length, of those that doubling gives, where it asks
      for no more or that is at the ceiling. */
  method GrowAndCall(len: nat, call: nat -> Reply) returns (r: Reply, size: nat, ghost n: nat)
    ensures size == Grown(len, n) && r == call(size) && (!Asks(r) || size >= MAX_BUFLEN)
    ensures forall i :: 0 <= i < n ==> Asks(call(Grown(len, i))) && Grown(len, i) < MAX_BUFLEN
    ensures size < 2 * MAX_BUFLEN || size == len
  {
    size, n := len, 0;
    while true
      invariant size == Grown(len, n) && (size < 2 * MAX_BUFLEN || size == len)
      invariant forall i :: 0 <= i < n ==> Asks(call(Grown(len, i))) && Grown(len, i) < MAX_BUFLEN
      decreases 2 * MAX_BUFLEN - size
    {
      r := call(size);
      if r.status != TRYAGAIN || r.errno != ERANGE { return; }
      if size >= MAX_BUFLEN { return; }
      GrownNext(len, n);
      size, n := 2 * (if size == 0 then 1 else size), n + 1;
    }
  }

  lemma {:induction false} GrownNext(len: nat, n: nat)
    ensures Grown(len, n + 1) == 2 * if Grown(len, n) == 0 then 1 else Grown(len, n)
    decreases n
  {
    if n > 0 { GrownNext(2 * if len == 0 then 1 else len, n - 1); }
  }

  /** A settled answer of `get*ent`: an entry, the end of the data, or a fault. */
  function ClassifyEnt(r: Reply): Result<bool> {
    if r.errno != 0 || r.status == TRYAGAIN then Bad(r.status, r.errno) else Good(r.status == SUCCESS)
  }

  /** What an enumeration yields: what the n-th entry of the module holds, or a fault. */
  datatype Item = Entry(n: nat) | Failed(status: int, errno: int)

  /** An answer that comes with an entry: success, and no errno. */
  predicate IsEntry(r: Reply) { r.status == SUCCESS && r.errno == 0 }

  /** An answer that is a fault: any errno, or being told to try again with none. */
  predicate IsFault(r: Reply) { r.errno != 0 || r.status == TRYAGAIN }

  /** The first answer that is no entry. */
  ghost predicate StopsAt(replies: nat -> Reply, n: nat) {
    !IsEntry(replies(n)) && forall i :: 0 <= i < n ==> IsEntry(replies(i))
  }

  /** An enumeration over a cursor whose n-th settled answer is `replies(n)`. */
  class EntIter {
    const replies: nat -> Reply
    var at: nat         // the answers asked for
    var open: bool
    var ends: nat       // the calls of `end*ent`

    constructor (replies: nat -> Reply)
      ensures this.replies == replies && at == 0 && open && Valid()
    {
      this.replies, at, open, ends := replies, 0, true, 0;
    }

    /** It is open exactly while every answer so far was an entry, and the cursor has been ended once otherwise. */
    ghost predicate Valid()
      reads this
    {
      && (open ==> ends == 0 && forall i :: 0 <= i < at ==> IsEntry(replies(i)))
      && (!open ==> ends == 1)
    }

    method Close()
      requires ends == if open then 0 else 1
      modifies this`open, this`ends
      ensures Valid() && !open && ends == 1
    {
      if open { open, ends := false, ends + 1; }
    }

    /** The next entry; or, where the answers stop, the fault if it is one and nothing if it is the end, and the
        cursor ended; or nothing, without asking. */
    method Next() returns (item: Option<Item>)
      requires Valid()
      modifies this
      ensures Valid()
      ensures !old(open) ==> item.None? && at == old(at) && !open
      ensures old(open) ==> at == old(at) + 1 && (open <==> !StopsAt(replies, old(at)))
      ensures old(open) && open ==> item == Some(Entry(old(at)))
      ensures old(open) && !open ==>
        var r := replies(old(at)); item == if IsFault(r) then Some(Failed(r.status, r.errno)) else None
    {
      if !open { return None; }
      var r := replies(at);
      at := at + 1;
      match ClassifyEnt(r)
      case Bad(status, errno) =>
        Close();
        item := Some(Failed(status, errno));
      case Good(more) =>
        if more {
          item := Some(Entry(at - 1));
        } else {
          Close();
          item := None;
        }
    }
  }

  /** What an enumeration yields when it is asked for the i-th time: the i-th entry if all answers up to it are
      entries, the fault where they stop at one, and nothing where they stop at the end or have stopped. */
  ghost function Expected(replies: nat -> Reply, i: nat): Option<Item> {
    if forall j :: 0 <= j <= i ==> IsEntry(replies(j)) then Some(Entry(i))
    else if StopsAt(replies, i) && IsFault(replies(i)) then Some(Failed(replies(i).status, replies(i).errno))
    else None
  }

  /** Where the answers have stopped there is nothing more to come. */
  lemma NothingAfter(replies: nat -> Reply, j: nat, i: nat)
    requires StopsAt(replies, j) && j < i
    ensures Expected(replies, i) == None
  {
  }

  /** An enumeration asked `k` times and then dropped yields that, and the cursor has been ended exactly once,
      wherever it was left. A stop short of the end never reads as the end. */
  method Enumerate(replies: nat -> Reply, k: nat) returns (items: seq<Option<Item>>, ends: nat)
    ensures |items| == k && ends == 1
    ensures forall i :: 0 <= i < k ==> items[i] == Expected(replies, i)
  {
    var it := new EntIter(replies);
    items := [];
    ghost var stop: nat := 0;
    for n := 0 to k
      invariant it.Valid() && it.replies == replies && |items| == n && (it.open ==> it.at == n)
      invariant !it.open ==> stop < n && StopsAt(replies, stop)
      invariant forall i :: 0 <= i < n ==> items[i] == Expected(replies, i)
    {
      if it.open { stop := n; } else { NothingAfter(replies, stop, n); }
      var item := it.Next();
      items := items + [item];
    }
    it.Close();
    ends := it.ends;
  }

  /** Where `x` first appears. */
  function First(s: seq<nat>, x: nat): (i: nat)
    requires x in s
    ensures i < |s| && s[i] == x && forall j :: 0 <= j < i ==> s[j] != x
  {
    if s[0] == x then 0 else
    assert s == [s[0]] + s[1..];
    var i := First(s[1..], x);
    assert forall j :: 0 < j < |s| ==> s[j] == s[1..][j - 1];
    i + 1
  }

  /** `out` has what `s` has, once each, in order of first appearance. */
  predicate Deduped(s: seq<nat>, out: seq<nat>) {
    && (forall x :: x in out ==> x in s) && (forall x :: x in s ==> x in out)
    && (forall i, j :: 0 <= i < j < |out| ==> out[i] in s && out[j] in s && First(s, out[i]) < First(s, out[j]))
  }

  method DedupGids(gids: seq<nat>) returns (out: seq<nat>)
    ensures Deduped(gids, out)
  {
    hide First;
    var seen: set<nat> := {};
    out := [];
    for i := 0 to |gids|
      invariant forall x :: x in seen <==> x in gids[..i]
      invariant forall x :: x in seen <==> x in out
      invariant forall j :: 0 <= j < |out| ==> out[j] in gids && First(gids, out[j]) < i
      invariant forall j, k :: 0 <= j < k < |out| ==> First(gids, out[j]) < First(gids, out[k])
    {
      var gid := gids[i];
      assert gids[..i + 1] == gids[..i] + [gid];
      if gid !in seen {
        assert forall j :: 0 <= j < i ==> gids[j] == gids[..i][j];
        assert First(gids, gid) == i;
        seen := seen + {gid};
        out := out + [gid];
      }
    }
    assert gids[..|gids|] == gids;
  }

  /** A module's answer: its group list, that it is unavailable, or another fault. */
  datatype Answer = Gids(gids: seq<nat>) | Unavail | Fault(status: int, errno: int)

  /** The lists of the first `n` modules, behind the seed. */
  function Union(gid: nat, lookup: nat -> Answer, n: nat): seq<nat> {
    if n == 0 then [gid] else Union(gid, lookup, n - 1) + if lookup(n - 1).Gids? then lookup(n - 1).gids else []
  }

  const MODULES: nat := 3

  /** Every module that can answer adds its groups, and the seed comes first; the first fault that is more than
      being unavailable stands instead, whatever the modules after it hold. */
  method FanOutGroups(gid: nat, lookup: nat -> Answer) returns (r: Result<seq<nat>>)
    ensures r.Good? <==> forall i :: 0 <= i < MODULES ==> !lookup(i).Fault?
    ensures r.Good? ==> Deduped(Union(gid, lookup, MODULES), r.value) && r.value != [] && r.value[0] == gid
    ensures r.Bad? ==> exists i :: 0 <= i < MODULES && lookup(i) == Fault(r.status, r.errno)
                                   && forall j :: 0 <= j < i ==> !lookup(j).Fault?
  {
    var all := [gid];
    for i := 0 to MODULES
      invariant all == Union(gid, lookup, i) && all != [] && all[0] == gid
      invariant forall j :: 0 <= j < i ==> !lookup(j).Fault?
    {
      match lookup(i)
      case Gids(gids) => all := all + gids;
      case Unavail => assert Union(gid, lookup, i + 1) == Union(gid, lookup, i);
      case Fault(status, errno) => return Bad(status, errno);
    }
    var out := DedupGids(all);
    SeedFirst(all, out);
    r := Good(out);
  }

  lemma SeedFirst(s: seq<nat>, out: seq<nat>)
    requires s != [] && Deduped(s, out)
    ensures out != [] && out[0] == s[0]
  {
    assert s[0] in out && First(s, s[0]) == 0;
    var j :| 0 <= j < |out| && out[j] == s[0];
  }
}
