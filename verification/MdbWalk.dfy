/** The in-order walk behind scans and iterators, over a database sorted by key bytes. */
module MdbWalk {
  import opened Wrappers

  type Bytes = seq<bv8>

  datatype Entry = Entry(key: Bytes, value: Bytes)

  type Db = seq<Entry>

  /** LMDB's order of keys: by bytes, a prefix before what it begins. */
  predicate Less(a: Bytes, b: Bytes) {
    b != [] && (a == [] || a[0] < b[0] || (a[0] == b[0] && Less(a[1..], b[1..])))
  }

  predicate Sorted(db: Db) { forall i, j :: 0 <= i < j < |db| ==> Less(db[i].key, db[j].key) }

  /** The first entry at or after `start`, or the length if there is none. */
  function Seek(db: Db, start: Bytes): (i: nat)
    ensures i <= |db| && (forall j :: 0 <= j < i ==> Less(db[j].key, start))
    ensures i < |db| ==> !Less(db[i].key, start)
  {
    if db == [] || !Less(db[0].key, start) then 0
    else
      var i := Seek(db[1..], start);
      assert forall j :: 0 < j < |db| ==> db[j] == db[1..][j - 1];
      i + 1
  }

  predicate Passes(prefix: Option<Bytes>, e: Entry) { prefix.Some? ==> prefix.value <= e.key }

  function TakeWhile(db: Db, prefix: Option<Bytes>): Db {
    if db == [] || !Passes(prefix, db[0]) then [] else [db[0]] + TakeWhile(db[1..], prefix)
  }

  /** Everything a walk from `start` yields. */
  function Walked(db: Db, start: Option<Bytes>, prefix: Option<Bytes>): Db {
    TakeWhile(db[if start.Some? then Seek(db, start.value) else 0..], prefix)
  }

  /** The entries whose key starts with `prefix`, in order. */
  function Filter(db: Db, prefix: Bytes): Db {
    if db == [] then [] else (if prefix <= db[0].key then [db[0]] else []) + Filter(db[1..], prefix)
  }

  datatype Op = First | SetRange(key: Bytes) | Next

  /** An LMDB cursor and the iterator that owns it. `at` is its position, one past the end when it ran out, and
      -1 before the first step. */
  class Iter {
    const db: Db
    const start: Option<Bytes>
    const prefix: Option<Bytes>
    var at: int
    var started: bool
    var done: bool

    constructor (db: Db, start: Option<Bytes>, prefix: Option<Bytes>)
      ensures this.db == db && this.start == start && this.prefix == prefix && !done && Valid()
      ensures Left() == Walked(db, start, prefix)
    {
      this.db, this.start, this.prefix, at, started, done := db, start, prefix, -1, false, false;
    }

    ghost predicate Valid()
      reads this
    {
      -1 <= at <= |db| && (started && !done ==> 0 <= at < |db|)
    }

    /** What is still to come. */
    ghost function Left(): Db
      requires Valid()
      reads this
    {
      if done then [] else if started then TakeWhile(db[at + 1..], prefix) else Walked(db, start, prefix)
    }

    /** One move of the cursor. */
    method Step(op: Op) returns (e: Option<Entry>)
      requires -1 <= at <= |db|
      modifies this`at
      ensures at == match op
                    case First => 0
                    case SetRange(key) => Seek(db, key)
                    case Next => if old(at) < |db| then old(at) + 1 else |db|
      ensures e == if at < |db| then Some(db[at]) else None
    {
      match op {
        case First => at := 0;
        case SetRange(key) =>
          at := 0;
          while at < |db| && Less(db[at].key, key)
            invariant 0 <= at <= |db| && forall j :: 0 <= j < at ==> Less(db[j].key, key)
          {
            at := at + 1;
          }
        case Next => if at < |db| { at := at + 1; }
      }
      e := if at < |db| then Some(db[at]) else None;
    }

    /** A step of the walk: a seek on the first, `Next` after. An empty start is the beginning, because LMDB
        has no empty key. */
    method Walk() returns (e: Option<Entry>)
      requires Valid() && !done
      modifies this`at, this`started
      ensures -1 <= at <= |db|
      ensures e == if old(Left()) == [] then None else Some(old(Left())[0])
      ensures e.Some? ==> Valid() && Left() == old(Left())[1..]
    {
      hide Seek, TakeWhile, Less;
      ghost var from := if started then at + 1 else if start.Some? then Seek(db, start.value) else 0;
      SeekEmpty(db);
      var op := if started then Op.Next else if start.Some? && start.value != [] then SetRange(start.value) else First;
      started := true;
      var found := Step(op);
      TakeWhileCons(db, from, prefix);
      e := if found.Some? && prefix.Some? && !(prefix.value <= found.value.key) then None else found;
    }

    /** `next`: an entry, a fault that LMDB reports, or nothing. It stays exhausted after a fault or the end. */
    method Next(fault: Option<int>) returns (e: Option<Entry>, error: Option<int>)
      requires Valid()
      modifies this
      ensures Valid()
      ensures !old(done) && fault.Some? ==> error == fault && e.None? && done && Left() == []
      ensures old(done) || fault.None? ==>
        error.None? && e == if old(Left()) == [] then None else Some(old(Left())[0])
      ensures old(done) || fault.None? ==> Left() == if old(Left()) == [] then [] else old(Left())[1..]
      ensures old(done) || e.None? ==> done
    {
      hide TakeWhile, Walked;
      if done { return None, None; }
      if fault.Some? {
        started, done := true, true;
        return None, fault;
      }
      e := Walk();
      if e.None? { done := true; }
      error := None;
    }
  }

  lemma TakeWhileCons(db: Db, from: nat, prefix: Option<Bytes>)
    requires from <= |db|
    ensures TakeWhile(db[from..], prefix) ==
      if from == |db| || !Passes(prefix, db[from]) then [] else [db[from]] + TakeWhile(db[from + 1..], prefix)
  {
    if from < |db| { assert db[from..][1..] == db[from + 1..]; }
  }

  lemma SeekEmpty(db: Db)
    ensures Seek(db, []) == 0
  {
  }

  /** A key that starts with `p` is not before it. */
  lemma {:induction false} PrefixNotLess(p: Bytes, k: Bytes)
    requires p <= k
    ensures !Less(k, p)
    decreases |p|
  {
    if p != [] { PrefixNotLess(p[1..], k[1..]); }
  }

  /** Past the keys that start with `p`, none does. */
  lemma {:induction false} PastPrefix(p: Bytes, k: Bytes, next: Bytes)
    requires !Less(k, p) && !(p <= k) && Less(k, next)
    ensures !(p <= next)
    decreases |p|
  {
    if p <= next && p != [] && k[0] == p[0] {
      assert p == [p[0]] + p[1..] && k == [k[0]] + k[1..];
      PastPrefix(p[1..], k[1..], next[1..]);
    }
  }

  lemma {:induction false} TakeWhileIsFilter(db: Db, p: Bytes)
    requires Sorted(db) && forall i :: 0 <= i < |db| ==> !Less(db[i].key, p)
    ensures TakeWhile(db, Some(p)) == Filter(db, p)
    decreases |db|
  {
    if db != [] {
      if p <= db[0].key {
        TakeWhileIsFilter(db[1..], p);
      } else {
        forall i | 0 < i < |db|
          ensures !(p <= db[i].key)
        {
          PastPrefix(p, db[0].key, db[i].key);
        }
        FilterNone(db, p);
      }
    }
  }

  lemma {:induction false} FilterNone(db: Db, p: Bytes)
    requires forall i :: 0 <= i < |db| ==> !(p <= db[i].key)
    ensures Filter(db, p) == []
  {
    if db != [] { FilterNone(db[1..], p); }
  }

  lemma {:induction false} FilterDrop(db: Db, p: Bytes, k: nat)
    requires k <= |db| && forall i :: 0 <= i < k ==> !(p <= db[i].key)
    ensures Filter(db, p) == Filter(db[k..], p)
    decreases k
  {
    if k > 0 {
      FilterDrop(db[1..], p, k - 1);
      assert db[1..][k - 1..] == db[k..];
    }
  }

  lemma {:induction false} NotBefore(a: Bytes, b: Bytes, p: Bytes)
    requires !Less(a, p) && Less(a, b)
    ensures !Less(b, p)
    decreases |p|
  {
    if p != [] && b[0] == p[0] && a[0] == p[0] { NotBefore(a[1..], b[1..], p[1..]); }
  }

  /** Over any database in LMDB's order, a prefix walk yields the entries whose key starts with the prefix, in
      order, each once, and no other; and an empty prefix, like no prefix, yields them all. */
  lemma PrefixWalk(db: Db, p: Bytes)
    requires Sorted(db)
    ensures Walked(db, Some(p), Some(p)) == Filter(db, p)
    ensures Walked(db, Some([]), Some([])) == db && Walked(db, None, None) == db
  {
    var k := Seek(db, p);
    forall i | 0 <= i < k
      ensures !(p <= db[i].key)
    {
      if p <= db[i].key { PrefixNotLess(p, db[i].key); }
    }
    FilterDrop(db, p, k);
    forall i | k < i < |db|
      ensures !Less(db[i].key, p)
    {
      NotBefore(db[k].key, db[i].key, p);
    }
    TakeWhileIsFilter(db[k..], p);
    SeekEmpty(db);
    TakeWhileAll(db, Some([]));
    TakeWhileAll(db, None);
  }

  lemma {:induction false} TakeWhileAll(db: Db, prefix: Option<Bytes>)
    requires prefix.Some? ==> prefix.value == []
    ensures TakeWhile(db[0..], prefix) == db
    decreases |db|
  {
    assert db[0..] == db;
    if db != [] {
      TakeWhileAll(db[1..], prefix);
      assert db[1..][0..] == db[1..];
    }
  }

  /** The entries whose key is not before `start`, in order. */
  function AtOrAfter(db: Db, start: Bytes): Db {
    if db == [] then [] else (if Less(db[0].key, start) then [] else [db[0]]) + AtOrAfter(db[1..], start)
  }

  lemma {:induction false} AllAtOrAfter(db: Db, start: Bytes)
    requires forall i :: 0 <= i < |db| ==> !Less(db[i].key, start)
    ensures AtOrAfter(db, start) == db
    decreases |db|
  {
    hide Less;
    if db != [] {
      AllAtOrAfter(db[1..], start);
      assert db == [db[0]] + db[1..];
    }
  }

  lemma {:induction false} AtOrAfterDrop(db: Db, start: Bytes, k: nat)
    requires k <= |db| && forall i :: 0 <= i < k ==> Less(db[i].key, start)
    ensures AtOrAfter(db, start) == AtOrAfter(db[k..], start)
    decreases k
  {
    hide Less;
    if k > 0 {
      AtOrAfterDrop(db[1..], start, k - 1);
      assert db[1..][k - 1..] == db[k..];
      assert [] + AtOrAfter(db[1..], start) == AtOrAfter(db[1..], start);
    } else {
      assert db[0..] == db;
    }
  }

  /** Over any database in LMDB's order, a walk from a start and without a prefix yields the entries whose key is
      not before the start, in order, each once, and no other. */
  lemma WalkFrom(db: Db, start: Bytes)
    requires Sorted(db)
    ensures Walked(db, Some(start), None) == AtOrAfter(db, start)
  {
    hide Less, TakeWhile, AtOrAfter;
    var k := Seek(db, start);
    AtOrAfterDrop(db, start, k);
    forall i | 0 <= i < |db[k..]|
      ensures !Less(db[k..][i].key, start)
    {
      if i > 0 { NotBefore(db[k].key, db[k + i].key, start); }
    }
    AllAtOrAfter(db[k..], start);
    TakeWhileAll(db[k..], None);
    assert db[k..][0..] == db[k..];
  }

  lemma {:induction false} AtOrAfterIs(db: Db, start: Bytes, e: Entry)
    ensures e in AtOrAfter(db, start) <==> e in db && !Less(e.key, start)
    decreases |db|
  {
    hide Less;
    if db != [] {
      AtOrAfterIs(db[1..], start, e);
      assert db == [db[0]] + db[1..];
    }
  }

  /** Two keys first differ at `i`, where `a` has the smaller byte. */
  predicate SmallerAt(a: Bytes, b: Bytes, i: nat) { i < |a| && i < |b| && a[..i] == b[..i] && a[i] < b[i] }

  lemma SmallerFirst(x: bv8, a: Bytes, y: bv8, b: Bytes)
    ensures SmallerAt([x] + a, [y] + b, 0) <==> x < y
  {
  }

  lemma SmallerLater(x: bv8, a: Bytes, y: bv8, b: Bytes, i: nat)
    ensures SmallerAt([x] + a, [y] + b, i + 1) <==> x == y && SmallerAt(a, b, i)
  {
    if i < |a| && i < |b| {
      assert ([x] + a)[..i + 1] == [x] + a[..i] && ([y] + b)[..i + 1] == [y] + b[..i];
      SameCons(x, a[..i], y, b[..i]);
    }
  }

  lemma SameCons(x: bv8, a: Bytes, y: bv8, b: Bytes)
    ensures [x] + a == [y] + b <==> x == y && a == b
  {
    assert ([x] + a)[0] == x && ([x] + a)[1..] == a && ([y] + b)[0] == y && ([y] + b)[1..] == b;
  }

  lemma PrefixLater(x: bv8, a: Bytes, y: bv8, b: Bytes)
    ensures [x] + a < [y] + b <==> x == y && a < b
  {
    if |a| < |b| {
      assert ([y] + b)[..|a| + 1] == [y] + b[..|a|];
      SameCons(x, a, y, b[..|a|]);
    }
  }

  lemma LessCons(x: bv8, a: Bytes, y: bv8, b: Bytes)
    ensures Less([x] + a, [y] + b) <==> x < y || (x == y && Less(a, b))
  {
    assert ([x] + a)[1..] == a && ([y] + b)[1..] == b;
  }

  /** LMDB's order, spelled out: one key is before another when it is a proper beginning of it, or has the smaller
      byte where they first differ. */
  lemma {:induction false} LessMeans(a: Bytes, b: Bytes)
    ensures Less(a, b) <==> a < b || exists i: nat :: SmallerAt(a, b, i)
    decreases |a|
  {
    if a != [] && b != [] {
      hide Less, SmallerAt;
      var x, y := a[1..], b[1..];
      assert a == [a[0]] + x && b == [b[0]] + y;
      LessMeans(x, y);
      LessCons(a[0], x, b[0], y);
      PrefixLater(a[0], x, b[0], y);
      SmallerFirst(a[0], x, b[0], y);
      forall i: nat
        ensures SmallerAt(a, b, i + 1) <==> a[0] == b[0] && SmallerAt(x, y, i)
      {
        SmallerLater(a[0], x, b[0], y, i);
      }
      if exists i: nat :: SmallerAt(a, b, i) {
        var i: nat :| SmallerAt(a, b, i);
        if i > 0 { assert SmallerAt(a, b, i - 1 + 1) && SmallerAt(x, y, i - 1); } else { assert a[0] < b[0]; }
        assert Less(a, b);
      }
      if a[0] < b[0] {
        assert SmallerAt(a, b, 0);
      } else if a[0] == b[0] && exists i: nat :: SmallerAt(x, y, i) {
        var i: nat :| SmallerAt(x, y, i);
        assert SmallerAt(a, b, i + 1);
      }
    }
  }

  /** Membership, spelled out: a filtered entry is one of the database's with the prefix. */
  lemma {:induction false} FilterIs(db: Db, p: Bytes, e: Entry)
    ensures e in Filter(db, p) <==> e in db && p <= e.key
  {
    if db != [] { FilterIs(db[1..], p, e); }
  }

  /** `iter_prefix(p)` collected, from a database in order and without a fault. */
  method CollectPrefix(db: Db, p: Bytes) returns (all: Db)
    requires Sorted(db)
    ensures all == Filter(db, p)
  {
    hide Walked, TakeWhile, Filter, Sorted, Iter.Left;
    var it := new Iter(db, Some(p), Some(p));
    PrefixWalk(db, p);
    all := [];
    var more := true;
    while more
      invariant it.Valid() && all + it.Left() == Filter(db, p)
      invariant !more ==> it.Left() == []
      decreases |it.Left()|, more
    {
      ghost var left := it.Left();
      var e, error := it.Next(None);
      if e.Some? {
        assert left == [left[0]] + left[1..];
        all := all + [e.value];
      } else {
        more := false;
      }
    }
  }

  lemma OneMore(all: Db, n: nat)
    requires n < |all|
    ensures all[..n + 1] == all[..n] + [all[n]] && all[n..][0] == all[n] && all[n..][1..] == all[n + 1..]
  {
  }

  /** `scan_impl`: each entry is shown to the callback, up to the one it breaks on or the step at which LMDB
      reports a fault. `faults(n)` is what the n-th step of the cursor reports, if anything. */
  method Scan(db: Db, start: Option<Bytes>, prefix: Option<Bytes>, breaks: Entry -> bool, faults: nat -> Option<int>)
    returns (shown: Db, broke: bool, error: Option<int>)
    ensures shown <= Walked(db, start, prefix)
    ensures forall i :: 0 <= i < |shown| - 1 ==> !breaks(shown[i])
    ensures forall i :: 0 <= i < |shown| ==> faults(i).None?
    ensures broke <==> shown != [] && breaks(shown[|shown| - 1])
    ensures broke ==> error.None?
    ensures !broke ==> error == faults(|shown|)
    ensures !broke && error.None? ==> shown == Walked(db, start, prefix)
  {
    hide Walked, TakeWhile, Iter.Left;
    var it := new Iter(db, start, prefix);
    ghost var all := Walked(db, start, prefix);
    shown := [];
    while true
      invariant it.Valid() && !it.done && |shown| <= |all| && shown == all[..|shown|] && it.Left() == all[|shown|..]
      invariant forall i :: 0 <= i < |shown| ==> !breaks(shown[i]) && faults(i).None?
      decreases |it.Left()|
    {
      if faults(|shown|).Some? { return shown, false, faults(|shown|); }
      var e := it.Walk();
      if e.None? { return shown, false, None; }
      OneMore(all, |shown|);
      shown := shown + [e.value];
      if breaks(e.value) { return shown, true, None; }
    }
  }
}
