/** One transaction for each thread and environment: the list a thread keeps of the environments it is in, the
    guards that hold its entries, and what they promise LMDB over every interleaving of threads. */
module MdbTxn {
  datatype Handle = Handle(slot: nat, n: nat)     // an `MDB_env` of a slot of the pool
  datatype EnvId = EnvId(slot: nat, n: nat)
  type GuardId = nat
  type Thread = nat

  /** No two entries alike. */
  predicate NoDup(s: seq<Handle>) { forall i, j :: 0 <= i < j < |s| ==> s[i] != s[j] }

  /** The list without the last entry for `env`, whose place the final entry takes. */
  function Released(s: seq<Handle>, env: Handle): seq<Handle> {
    var i := LastIndex(s, env);
    if i == |s| then s else s[i := s[|s| - 1]][..|s| - 1]
  }

  /** The last position of `env`, or the length if there is none. */
  function LastIndex(s: seq<Handle>, env: Handle): (i: nat)
    ensures i <= |s| && (i < |s| ==> s[i] == env) && forall j :: i < j < |s| ==> s[j] != env
    ensures i == |s| ==> env !in s
  {
    if s == [] then 0
    else if s[|s| - 1] == env then |s| - 1
    else
      var i := LastIndex(s[..|s| - 1], env);
      assert forall j :: 0 <= j < |s| - 1 ==> s[j] == s[..|s| - 1][j];
      if i == |s| - 1 then |s| else i
  }

  /** Releasing takes out `env` and nothing else. */
  lemma ReleasedIs(s: seq<Handle>, env: Handle)
    requires NoDup(s)
    ensures NoDup(Released(s, env)) && forall h :: h in Released(s, env) <==> h in s && h != env
  {
    var i := LastIndex(s, env);
    var r := Released(s, env);
    if i < |s| {
      var n := |s| - 1;
      assert |r| == n && forall j :: 0 <= j < n ==> r[j] == if j == i then s[n] else s[j];
      forall h | h in s && h != env
        ensures h in r
      {
        var j :| 0 <= j < |s| && s[j] == h;
        if j == n { assert r[i] == h; } else { assert r[j] == h; }
      }
    }
  }

  /** A thread's own list. */
  class Active {
    var list: seq<Handle>

    constructor ()
      ensures list == []
    {
      list := [];
    }

    method Claim(env: Handle) returns (refused: bool)
      modifies this
      ensures refused <==> env in old(list)
      ensures list == if refused then old(list) else old(list) + [env]
    {
      refused := env in list;
      if !refused { list := list + [env]; }
    }

    method Release(env: Handle)
      modifies this
      ensures list == Released(old(list), env)
    {
      var i := |list|;
      while i > 0 && list[i - 1] != env
        invariant i <= |list| && list == old(list)
        invariant 0 <= i && forall j :: i <= j < |list| ==> list[j] != env
      {
        i := i - 1;
      }
      if i > 0 {
        // `swap_remove`
        list := list[i - 1 := list[|list| - 1]];
        list := list[..|list| - 1];
      }
    }
  }

  /** A `TxnGuard`: the `Env` behind it, which an iterator owns and other calls borrow, its `committed` flag, and
      the cursors opened in it. */
  datatype Guard = Guard(env: EnvId, handle: Handle, owned: bool, committed: bool, cursors: nat)

  /** Where a thread is in beginning a transaction, in committing one, or in dropping what holds one. */
  datatype Pc =
    | Idle
    | Claimed(env: EnvId, handle: Handle, owned: bool)    // about to call `mdb_txn_begin`
    | Backing(env: EnvId, handle: Handle, owned: bool)    // it failed, and the entry goes back
    | Committing(g: GuardId)                              // the flag is set, and `mdb_txn_commit` comes next
    | AtCursor(g: GuardId)                                // dropping: the cursors first,
    | AtTxn(g: GuardId)                                   // the guard next, which aborts or does not,
    | AtSlot(g: GuardId)                                  // and gives the thread's entry back,
    | AtEnv(env: EnvId)                                   // and an iterator's own `Env` last

  /** `ends` counts the calls that finished each transaction that was begun. */
  datatype Local = Local(active: seq<Handle>, guards: map<GuardId, Guard>, ends: map<GuardId, nat>, pc: Pc)

  /** Steps of one thread. A commit consumes a guard that has no cursor left, which the borrow of it ensures, and
      goes on as every drop does. */
  datatype Step =
    | Claim(env: EnvId, handle: Handle, owned: bool) | Begun(g: GuardId) | BeginFails | GiveBack
    | OpenCursor(g: GuardId) | CloseCursor(g: GuardId)
    | Commit(g: GuardId) | CallCommit(works: bool) | Drop(g: GuardId)
    | DropCursors | DropTxn | Release | Over

  predicate Enabled(l: Local, a: Step) {
    match a
    case Claim(_, _, _) => l.pc.Idle?
    case Begun(g) => l.pc.Claimed? && g !in l.ends
    case BeginFails => l.pc.Claimed?
    case GiveBack => l.pc.Backing?
    case OpenCursor(g) => l.pc.Idle? && g in l.guards
    case CloseCursor(g) => l.pc.Idle? && g in l.guards && l.guards[g].cursors > 0
    case Commit(g) => l.pc.Idle? && g in l.guards && l.guards[g].cursors == 0
    case CallCommit(_) => l.pc.Committing? && l.pc.g in l.ends
    case Drop(g) => l.pc.Idle? && g in l.guards
    case DropCursors => l.pc.AtCursor? && l.pc.g in l.guards
    case DropTxn => l.pc.AtTxn? && l.pc.g in l.guards && l.pc.g in l.ends
    case Release => l.pc.AtSlot? && l.pc.g in l.guards
    case Over => l.pc.AtEnv?
  }

  /** One more call that finishes a transaction. */
  function Finish(l: Local, g: GuardId): map<GuardId, nat>
    requires g in l.ends
  {
    l.ends[g := l.ends[g] + 1]
  }

  function Left(env: EnvId, owned: bool): Pc { if owned then AtEnv(env) else Idle }

  function Do(l: Local, a: Step): Local
    requires Enabled(l, a)
  {
    match a
    case Claim(e, h, owned) =>
      if h in l.active then l.(pc := Left(e, owned)) else l.(active := l.active + [h], pc := Claimed(e, h, owned))
    case Begun(g) =>
      l.(guards := l.guards[g := Guard(l.pc.env, l.pc.handle, l.pc.owned, false, 0)], ends := l.ends[g := 0], pc := Idle)
    case BeginFails => l.(pc := Backing(l.pc.env, l.pc.handle, l.pc.owned))
    case GiveBack => l.(active := Released(l.active, l.pc.handle), pc := Left(l.pc.env, l.pc.owned))
    case OpenCursor(g) => l.(guards := l.guards[g := l.guards[g].(cursors := l.guards[g].cursors + 1)])
    case CloseCursor(g) => l.(guards := l.guards[g := l.guards[g].(cursors := l.guards[g].cursors - 1)])
    case Commit(g) => l.(guards := l.guards[g := l.guards[g].(committed := true)], pc := Committing(g))
    // LMDB frees the transaction whatever it returns.
    case CallCommit(_) => l.(ends := Finish(l, l.pc.g), pc := AtTxn(l.pc.g))
    case Drop(g) => l.(pc := AtCursor(g))
    case DropCursors => l.(guards := l.guards[l.pc.g := l.guards[l.pc.g].(cursors := 0)], pc := AtTxn(l.pc.g))
    case DropTxn => l.(ends := if l.guards[l.pc.g].committed then l.ends else Finish(l, l.pc.g), pc := AtSlot(l.pc.g))
    case Release =>
      var g := l.guards[l.pc.g];
      l.(active := Released(l.active, g.handle), guards := l.guards - {l.pc.g}, pc := Left(g.env, g.owned))
    case Over => l.(pc := Idle)
  }

  /** The environment whose entry the thread holds without a guard for it. */
  predicate PcHolds(pc: Pc, h: Handle) { (pc.Claimed? || pc.Backing?) && pc.handle == h }

  ghost predicate HasGuard(l: Local, h: Handle) { exists g :: g in l.guards && l.guards[g].handle == h }

  /** The list names, once each, the environments the thread holds a guard on or is just taking or giving back. */
  ghost predicate Listed(l: Local) {
    NoDup(l.active) && forall h :: h in l.active <==> HasGuard(l, h) || PcHolds(l.pc, h)
  }

  /** One guard for each environment. */
  ghost predicate Apart(l: Local) {
    && (forall g, k :: g in l.guards && k in l.guards && g != k ==> l.guards[g].handle != l.guards[k].handle)
    && (forall g :: g in l.guards ==> !PcHolds(l.pc, l.guards[g].handle))
  }

  /** The guard whose drop or commit is under way. */
  predicate Going(pc: Pc, g: GuardId) {
    (pc.Committing? || pc.AtCursor? || pc.AtTxn? || pc.AtSlot?) && pc.g == g
  }

  /** How often the transaction of a guard has been finished: once from the commit on, or from the abort on. */
  function Ended(pc: Pc, g: GuardId, committed: bool): nat {
    if pc == AtSlot(g) || (committed && pc == AtTxn(g)) then 1 else 0
  }

  /** A transaction whose guard is gone has been finished once, and one whose guard is there as often as the
      drop has come to; only a guard being dropped can be marked committed. */
  predicate EndsRight(l: Local, g: GuardId) {
    && (g in l.guards ==>
          && g in l.ends && l.ends[g] == Ended(l.pc, g, l.guards[g].committed)
          && (l.guards[g].committed ==> Going(l.pc, g) && l.guards[g].cursors == 0))
    && (g in l.ends && g !in l.guards ==> l.ends[g] == 1)
  }

  ghost predicate Ending(l: Local) {
    && (forall g :: EndsRight(l, g))
    && (l.pc.Committing? || l.pc.AtCursor? || l.pc.AtTxn? || l.pc.AtSlot? ==> l.pc.g in l.guards)
    && (l.pc.Committing? ==> l.guards[l.pc.g].committed)
    && (l.pc.AtCursor? ==> !l.guards[l.pc.g].committed)
    && (l.pc.AtTxn? || l.pc.AtSlot? ==> l.guards[l.pc.g].cursors == 0)
  }

  ghost predicate LocalInv(l: Local) { Listed(l) && Apart(l) && Ending(l) }

  lemma EndsOne(l: Local, a: Step, g: GuardId)
    requires Ending(l) && Enabled(l, a)
    ensures EndsRight(Do(l, a), g)
  {
    hide Released;
    assert EndsRight(l, g);
  }

  lemma EndingKept(l: Local, a: Step)
    requires Ending(l) && Enabled(l, a)
    ensures Ending(Do(l, a))
  {
    hide Released;
    forall g
      ensures EndsRight(Do(l, a), g)
    {
      EndsOne(l, a, g);
    }
    if l.pc.Committing? || l.pc.AtCursor? || l.pc.AtTxn? || l.pc.AtSlot? { assert EndsRight(l, l.pc.g); }
    if a.Commit? || a.Drop? { assert EndsRight(l, a.g); }
    hide EndsRight;
  }

  lemma PairsKept(l: Local, a: Step, g: GuardId, k: GuardId)
    requires Apart(l) && Ending(l) && Enabled(l, a)
    requires g in Do(l, a).guards && k in Do(l, a).guards && g != k
    ensures Do(l, a).guards[g].handle != Do(l, a).guards[k].handle
  {
    hide Released;
  }

  lemma PcKept(l: Local, a: Step, g: GuardId)
    requires Listed(l) && Apart(l) && Ending(l) && Enabled(l, a) && g in Do(l, a).guards
    ensures !PcHolds(Do(l, a).pc, Do(l, a).guards[g].handle)
  {
    hide Released, NoDup;
    if a.Claim? { assert HasGuard(l, l.guards[g].handle); }
  }

  lemma ApartKept(l: Local, a: Step)
    requires Listed(l) && Apart(l) && Ending(l) && Enabled(l, a)
    ensures Apart(Do(l, a))
  {
    forall g, k | g in Do(l, a).guards && k in Do(l, a).guards && g != k
      ensures Do(l, a).guards[g].handle != Do(l, a).guards[k].handle
    {
      PairsKept(l, a, g, k);
    }
    forall g | g in Do(l, a).guards
      ensures !PcHolds(Do(l, a).pc, Do(l, a).guards[g].handle)
    {
      PcKept(l, a, g);
    }
    hide Do, Listed, Ending;
  }

  /** What a step does to the guards, as the list sees it. */
  /** The guards that a step leaves, and with which handles. */
  lemma GuardAfter(l: Local, a: Step, g: GuardId)
    requires Ending(l) && Enabled(l, a)
    ensures g in Do(l, a).guards <==> (g in l.guards && !(a.Release? && g == l.pc.g)) || (a.Begun? && g == a.g)
    ensures g in Do(l, a).guards ==>
      Do(l, a).guards[g].handle == if a.Begun? && g == a.g then l.pc.handle else l.guards[g].handle
  {
    hide Released;
    if g in l.guards { assert EndsRight(l, g); }
  }

  lemma GuardsAfter(l: Local, a: Step, h: Handle)
    requires Apart(l) && Ending(l) && Enabled(l, a)
    ensures HasGuard(Do(l, a), h) <==>
      if a.Begun? then HasGuard(l, h) || h == l.pc.handle
      else if a.Release? then HasGuard(l, h) && h != l.guards[l.pc.g].handle
      else HasGuard(l, h)
  {
    hide Do, Ending, EndsRight;
    var m := Do(l, a);
    if HasGuard(l, h) {
      var g :| g in l.guards && l.guards[g].handle == h;
      GuardAfter(l, a, g);
      BegunIsNew(l, a, g);
      if !(a.Release? && g == l.pc.g) { assert g in m.guards && m.guards[g].handle == h; }
    }
    if a.Begun? && h == l.pc.handle {
      GuardAfter(l, a, a.g);
      assert a.g in m.guards && m.guards[a.g].handle == h;
    }
    if HasGuard(m, h) {
      var g :| g in m.guards && m.guards[g].handle == h;
      GuardAfter(l, a, g);
      if !a.Begun? || g != a.g { assert g in l.guards && l.guards[g].handle == h; }
    }
  }

  lemma BegunIsNew(l: Local, a: Step, g: GuardId)
    requires Ending(l) && Enabled(l, a) && g in l.guards
    ensures a.Begun? ==> g != a.g
  {
    assert EndsRight(l, g);
  }

  lemma ListedKept(l: Local, a: Step)
    requires Listed(l) && Apart(l) && Ending(l) && Enabled(l, a)
    ensures Listed(Do(l, a))
  {
    hide HasGuard, Released, Apart, Ending;
    if a.GiveBack? { ReleasedIs(l.active, l.pc.handle); }
    if a.Release? { ReleasedIs(l.active, l.guards[l.pc.g].handle); }
    forall h
      ensures h in Do(l, a).active <==> HasGuard(Do(l, a), h) || PcHolds(Do(l, a).pc, h)
    {
      GuardsAfter(l, a, h);
      ApartHere(l, h);
    }
  }

  lemma ApartHere(l: Local, h: Handle)
    requires Apart(l)
    ensures HasGuard(l, h) ==> !PcHolds(l.pc, h)
  {
  }

  lemma LocalKept(l: Local, a: Step)
    requires LocalInv(l) && Enabled(l, a)
    ensures LocalInv(Do(l, a))
  {
    hide Listed, Apart, Ending, Do;
    EndingKept(l, a);
    ApartKept(l, a);
    ListedKept(l, a);
  }

  /** The live `Env`s with their handles, the handles LMDB has open, and the threads. */
  datatype State = State(envs: map<EnvId, Handle>, open: set<Handle>, threads: map<Thread, Local>)

  function Init(): State { State(map[], {}, map[]) }

  function Fresh(): Local { Local([], map[], map[], Idle) }

  function Of(s: State, t: Thread): Local { if t in s.threads then s.threads[t] else Fresh() }

  /** `Close` is LMDB's close of an environment, which happens once no `Env` with that handle lives. */
  datatype Action =
    | Open(env: EnvId, handle: Handle) | DropEnv(env: EnvId) | Close(handle: Handle) | On(t: Thread, step: Step)

  predicate PcNames(pc: Pc, e: EnvId) { (pc.Claimed? || pc.Backing? || pc.AtEnv?) && pc.env == e }

  predicate PcTakes(pc: Pc, e: EnvId) { PcNames(pc, e) && (pc.AtEnv? || pc.owned) }

  /** The thread neither borrows this `Env` nor has it in an iterator. */
  predicate Unnamed(l: Local, e: EnvId) { !PcNames(l.pc, e) && forall g :: g in l.guards ==> l.guards[g].env != e }

  /** No iterator of the thread has taken in this `Env`. */
  predicate Untaken(l: Local, e: EnvId) {
    !PcTakes(l.pc, e) && forall g :: g in l.guards && l.guards[g].owned ==> l.guards[g].env != e
  }

  /** Ownership, as Rust keeps it: an `Env` that is borrowed is not dropped or moved, and one that was moved into
      an iterator is nobody else's. */
  predicate Can(s: State, a: Action) {
    match a
    case Open(e, _) => e !in s.envs
    case DropEnv(e) => e in s.envs && forall t :: t in s.threads ==> Unnamed(s.threads[t], e)
    case Close(h) => h in s.open && forall e :: e in s.envs ==> s.envs[e] != h
    case On(t, step) =>
      && Enabled(Of(s, t), step)
      && (step.Claim? ==> step.env in s.envs && s.envs[step.env] == step.handle)
      && (step.Claim? && step.owned ==> forall u :: u in s.threads ==> Unnamed(s.threads[u], step.env))
      && (step.Claim? ==> forall u :: u in s.threads ==> Untaken(s.threads[u], step.env))
  }

  function Next(s: State, a: Action): State
    requires Can(s, a)
  {
    match a
    case Open(e, h) => s.(envs := s.envs[e := h], open := s.open + {h})
    case DropEnv(e) => s.(envs := s.envs - {e})
    case Close(h) => s.(open := s.open - {h})
    case On(t, step) =>
      s.(envs := if step.Over? then s.envs - {Of(s, t).pc.env} else s.envs,
         threads := s.threads[t := Do(Of(s, t), step)])
  }

  /** Every transaction has its `Env` behind it, live, and so has an iterator that is still to let go of one. */
  predicate Behind(l: Local, envs: map<EnvId, Handle>) {
    && (forall g :: g in l.guards ==> l.guards[g].env in envs && envs[l.guards[g].env] == l.guards[g].handle)
    && (l.pc.Claimed? || l.pc.Backing? ==> l.pc.env in envs && envs[l.pc.env] == l.pc.handle)
    && (l.pc.AtEnv? ==> l.pc.env in envs)
  }

  /** What an iterator has taken in is behind nothing else of the thread. */
  predicate Sole(l: Local) {
    && (forall g :: g in l.guards ==> !PcTakes(l.pc, l.guards[g].env))
    && (forall g :: g in l.guards && l.guards[g].owned ==> !PcNames(l.pc, l.guards[g].env))
    && (forall g, k :: g in l.guards && k in l.guards && l.guards[g].owned && g != k ==>
          l.guards[g].env != l.guards[k].env)
  }

  predicate Backed(l: Local, envs: map<EnvId, Handle>) { Behind(l, envs) && Sole(l) }

  /** What one thread's iterators have taken in, another does not name. */
  ghost predicate Clear(l: Local, m: Local) { forall e :: Untaken(l, e) || Unnamed(m, e) }

  ghost predicate Inv(s: State) {
    && (forall t :: t in s.threads ==> LocalInv(s.threads[t]) && Backed(s.threads[t], s.envs))
    && (forall e :: e in s.envs ==> s.envs[e] in s.open)
    && (forall t, u :: t in s.threads && u in s.threads && t != u ==> Clear(s.threads[t], s.threads[u]))
  }

  lemma FreshInv(envs: map<EnvId, Handle>)
    ensures LocalInv(Fresh()) && Backed(Fresh(), envs)
  {
  }

  lemma FreshClear(l: Local)
    ensures Clear(Fresh(), l) && Clear(l, Fresh())
    ensures forall e :: Unnamed(Fresh(), e) && Untaken(Fresh(), e)
  {
  }

  /** A thread's step adds no name but the one it claims. */
  lemma NamesStep(l: Local, a: Step, e: EnvId)
    requires Enabled(l, a) && Ending(l) && Unnamed(l, e) && !(a.Claim? && a.env == e)
    ensures Unnamed(Do(l, a), e)
  {
    hide Released;
  }

  lemma TakesStep(l: Local, a: Step, e: EnvId)
    requires Enabled(l, a) && Ending(l) && Untaken(l, e) && !(a.Claim? && a.owned && a.env == e)
    ensures Untaken(Do(l, a), e)
  {
    hide Released;
  }

  lemma BehindStep(l: Local, envs: map<EnvId, Handle>, a: Step)
    requires Behind(l, envs) && Ending(l) && Enabled(l, a)
    requires a.Claim? ==> a.env in envs && envs[a.env] == a.handle
    ensures Behind(Do(l, a), envs)
  {
    hide Released;
  }

  lemma SoleStep(l: Local, a: Step)
    requires Sole(l) && Ending(l) && Enabled(l, a)
    requires a.Claim? ==> Untaken(l, a.env)
    requires a.Claim? && a.owned ==> Unnamed(l, a.env)
    ensures Sole(Do(l, a))
    ensures a.Over? ==> Unnamed(Do(l, a), l.pc.env)
  {
    hide Sole, Unnamed, Untaken, Ending, Enabled, Do;
    if a.Claim? || a.Begun? || a.Release? { SoleChanges(l, a); } else { SoleStays(l, a); }
    if a.Over? { OverUnnames(l, a); }
  }

  lemma SoleStays(l: Local, a: Step)
    requires Sole(l) && Enabled(l, a) && !(a.Claim? || a.Begun? || a.Release?)
    ensures Sole(Do(l, a))
  {
    hide Released;
  }

  lemma OverUnnames(l: Local, a: Step)
    requires Sole(l) && Enabled(l, a) && a.Over?
    ensures Unnamed(Do(l, a), l.pc.env)
  {
  }

  /** The steps that take an entry, a transaction or an `Env`, or give one up. */
  lemma SoleChanges(l: Local, a: Step)
    requires Sole(l) && Ending(l) && Enabled(l, a) && (a.Claim? || a.Begun? || a.Release?)
    requires a.Claim? ==> Untaken(l, a.env)
    requires a.Claim? && a.owned ==> Unnamed(l, a.env)
    ensures Sole(Do(l, a))
  {
    hide Released, EndsRight;
  }

  lemma BackedWithout(l: Local, envs: map<EnvId, Handle>, e: EnvId)
    requires Backed(l, envs) && Unnamed(l, e)
    ensures Backed(l, envs - {e})
  {
  }

  lemma BackedMore(l: Local, envs: map<EnvId, Handle>, e: EnvId, h: Handle)
    requires Backed(l, envs) && e !in envs
    ensures Backed(l, envs[e := h])
  {
  }

  lemma InvEnding(l: Local)
    requires LocalInv(l)
    ensures Ending(l)
  {
  }

  /** The thread that takes a step: its own invariant, and its `Env`s. */
  lemma SelfKept(s: State, t: Thread, step: Step)
    requires Inv(s) && Can(s, On(t, step))
    ensures var s' := Next(s, On(t, step));
      LocalInv(s'.threads[t]) && Backed(s'.threads[t], s'.envs)
  {
    hide LocalInv, Behind, Sole, Unnamed, Untaken, Do, Enabled, Clear;
    var l := Of(s, t);
    FreshInv(s.envs);
    FreshClear(Fresh());
    assert LocalInv(l) && Backed(l, s.envs);
    InvEnding(l);
    LocalKept(l, step);
    BehindStep(l, s.envs, step);
    SoleStep(l, step);
    if step.Over? {
      OverNames(l, step);
      BackedWithout(Do(l, step), s.envs, l.pc.env);
    }
  }

  lemma OverNames(l: Local, step: Step)
    requires step.Over? && Enabled(l, step)
    ensures l.pc.AtEnv? && !Untaken(l, l.pc.env)
  {
  }

  /** Another thread: its `Env`s are left alone. */
  lemma OtherKept(s: State, a: Action, u: Thread)
    requires Inv(s) && Can(s, a) && u in s.threads && !(a.On? && a.t == u)
    ensures Backed(s.threads[u], Next(s, a).envs)
  {
    hide LocalInv, Behind, Sole, Unnamed, Untaken, Do, Enabled;
    var l := s.threads[u];
    match a
    case Open(e, h) => BackedMore(l, s.envs, e, h);
    case DropEnv(e) => BackedWithout(l, s.envs, e);
    case Close(_) =>
    case On(t, step) =>
      if step.Over? {
        OverNames(Of(s, t), step);
        FreshClear(l);
        assert Clear(Of(s, t), l);
        BackedWithout(l, s.envs, Of(s, t).pc.env);
      }
  }

  lemma ClearKept(s: State, t: Thread, step: Step, u: Thread)
    requires Inv(s) && Can(s, On(t, step)) && u in s.threads && u != t
    ensures var l := Do(Of(s, t), step); Clear(l, s.threads[u]) && Clear(s.threads[u], l)
  {
    hide LocalInv, Behind, Sole, Unnamed, Untaken, Do, Enabled;
    var l, m := Of(s, t), s.threads[u];
    FreshInv(s.envs);
    FreshClear(m);
    assert LocalInv(l) && Clear(l, m) && Clear(m, l);
    InvEnding(l);
    forall e
      ensures Untaken(Do(l, step), e) || Unnamed(m, e)
      ensures Untaken(m, e) || Unnamed(Do(l, step), e)
    {
      if Untaken(l, e) && !(step.Claim? && step.owned && step.env == e) { TakesStep(l, step, e); }
      if Unnamed(l, e) && !(step.Claim? && step.env == e) { NamesStep(l, step, e); }
    }
  }

  lemma InvKept(s: State, a: Action)
    requires Inv(s) && Can(s, a)
    ensures Inv(Next(s, a))
  {
    hide LocalInv, Backed, Unnamed, Untaken, Do, Enabled, Clear;
    var s' := Next(s, a);
    if a.On? { SelfKept(s, a.t, a.step); }
    forall u | u in s.threads && !(a.On? && a.t == u)
      ensures Backed(s.threads[u], s'.envs)
    {
      OtherKept(s, a, u);
    }
    forall u | a.On? && u in s.threads && u != a.t
      ensures Clear(s'.threads[a.t], s.threads[u]) && Clear(s.threads[u], s'.threads[a.t])
    {
      ClearKept(s, a.t, a.step, u);
    }
  }

  ghost predicate Run(s: State, acts: seq<Action>, t: State)
    decreases |acts|
  {
    if acts == [] then s == t else Can(s, acts[0]) && Run(Next(s, acts[0]), acts[1..], t)
  }

  lemma {:induction false} RunInv(s: State, acts: seq<Action>, t: State)
    requires Inv(s) && Run(s, acts, t)
    ensures Inv(t)
    decreases |acts|
  {
    hide Inv, Can, Next;
    if acts != [] {
      InvKept(s, acts[0]);
      RunInv(Next(s, acts[0]), acts[1..], t);
    }
  }

  lemma ReachableThread(acts: seq<Action>, s: State, t: Thread)
    requires Run(Init(), acts, s)
    ensures LocalInv(Of(s, t)) && Backed(Of(s, t), s.envs) && Inv(s)
  {
    hide Run, LocalInv, Backed, Clear;
    RunInv(Init(), acts, s);
    FreshInv(s.envs);
  }

  /** Every reachable state, every thread. Between calls its list names each environment it has a live
      transaction on, once, and no other; there is one such transaction; and a call that begins one is
      refused with `EDEADLK` exactly when one is live there, so the nested call never reaches LMDB. */
  lemma OneEach(acts: seq<Action>, s: State, t: Thread, e: EnvId, h: Handle, owned: bool)
    requires Run(Init(), acts, s) && Of(s, t).pc.Idle?
    ensures var l := Of(s, t);
      && NoDup(l.active) && (forall k :: k in l.active <==> HasGuard(l, k))
      && (forall g, k :: g in l.guards && k in l.guards && l.guards[g].handle == l.guards[k].handle ==> g == k)
      && (forall g :: g in l.guards ==> g in l.ends && l.ends[g] == 0)
      && (Do(l, Claim(e, h, owned)).pc.Claimed? <==> !HasGuard(l, h))
  {
    hide Run, Inv, Backed, HasGuard;
    ReachableThread(acts, s, t);
    assert forall g :: g in Of(s, t).guards ==> EndsRight(Of(s, t), g);
  }

  /** Every reachable state, every thread. `mdb_txn_begin` is called only where the thread has no live
      transaction on that environment. */
  lemma NeverNested(acts: seq<Action>, s: State, t: Thread)
    requires Run(Init(), acts, s) && Of(s, t).pc.Claimed?
    ensures !HasGuard(Of(s, t), Of(s, t).pc.handle)
  {
    hide Run, Inv, Backed, Ending, Listed;
    ReachableThread(acts, s, t);
  }

  /** Every reachable state, every thread. No transaction is finished twice. One whose guard is gone has been
      finished exactly once, whether it was committed, failed to commit, or was aborted; one whose guard is not
      being dropped or committed has not been finished; LMDB's commit and abort are called only on one that
      has not been, and with no cursor left open on it. */
  lemma FinishedOnce(acts: seq<Action>, s: State, t: Thread, g: GuardId)
    requires Run(Init(), acts, s) && g in Of(s, t).ends
    ensures var l := Of(s, t);
      && l.ends[g] <= 1
      && (g !in l.guards ==> l.ends[g] == 1)
      && (g in l.guards && !Going(l.pc, g) ==> l.ends[g] == 0)
      && (l.pc == Committing(g) || (l.pc == AtTxn(g) && g in l.guards && !l.guards[g].committed) ==>
            g in l.guards && l.ends[g] == 0 && l.guards[g].cursors == 0)
      && (l.pc == AtSlot(g) ==> l.ends[g] == 1)
  {
    hide Run, Inv, Backed, Listed, Apart;
    ReachableThread(acts, s, t);
    assert EndsRight(Of(s, t), g);
  }

  /** Every reachable state. Behind every transaction and cursor, in any thread, there is a live `Env` of its
      environment, whatever iterators are half way through being dropped; so the environment is open, and
      nothing can close it. */
  lemma OpenWhileInUse(acts: seq<Action>, s: State, t: Thread, g: GuardId)
    requires Run(Init(), acts, s) && g in Of(s, t).guards
    ensures var guard := Of(s, t).guards[g];
      && guard.env in s.envs && s.envs[guard.env] == guard.handle
      && guard.handle in s.open && !Can(s, Close(guard.handle))
  {
    hide Run, LocalInv, Sole, Clear, Do;
    ReachableThread(acts, s, t);
  }
}
