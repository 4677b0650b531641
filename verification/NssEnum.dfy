/** Enumeration of NSS databases: the claims that keep one iterator at a time on each cursor, over every
    interleaving of threads. A process-scoped service has one cursor, guarded by a lock; a thread-scoped one has a
    cursor for each thread and database. */
module NssEnum {
  import opened Wrappers

  type Service = nat
  type Thread = nat

  datatype Database = Passwd | Group

  datatype Key = Key(svc: Service, db: Database)

  datatype Cursor = Shared(svc: Service) | Own(t: Thread, k: Key)

  /** The iterator of one thread over one database. */
  datatype User = User(t: Thread, k: Key)

  /** A call on a cursor. */
  datatype Event = Set(u: User) | SetFails | Get(u: User) | End(u: User)

  datatype Pc =
    | Idle
    | Waits(k: Key)        // for the service's lock
    | Claimed(k: Key)      // the slot is held, and `set*ent` comes next
    | Ending(k: Key)       // the slot is held, and `end*ent` comes next
    | Releasing(k: Key)    // the slot's drop: the entry in the thread's list,
    | Unlocking(k: Key)    // then the lock

  /** A thread: its list of live enumerations, its open iterators, and where it is. */
  datatype Local = Local(live: seq<Key>, open: set<Key>, pc: Pc)

  /** `process` holds the process-scoped services; `holder` says which thread has each one's lock. */
  datatype State = State(process: set<Service>, holder: map<Service, Thread>, threads: map<Thread, Local>,
                         logs: map<Cursor, seq<Event>>)

  function Init(process: set<Service>): State { State(process, map[], map[], map[]) }

  function Of(s: State, t: Thread): Local { if t in s.threads then s.threads[t] else Local([], {}, Idle) }

  function LogOf(s: State, c: Cursor): seq<Event> { if c in s.logs then s.logs[c] else [] }

  function CursorOf(s: State, t: Thread, k: Key): Cursor { if k.svc in s.process then Shared(k.svc) else Own(t, k) }

  datatype Action =
    | Acquire(k: Key) | Lock | SetWorks | SetFailed
    | Next(k: Key)                    // `get*ent`; one that finds the end or a fault is followed by `Stop`
    | Stop(k: Key)                    // the iterator is closed or dropped
    | CallEnd | Release | Unlock

  /** Another enumeration of the thread that this one would collide with. */
  predicate Conflict(s: State, l: Local, k: Key) {
    exists i :: 0 <= i < |l.live| && l.live[i].svc == k.svc && (k.svc in s.process || l.live[i].db == k.db)
  }

  predicate Enabled(s: State, t: Thread, a: Action) {
    var l := Of(s, t);
    match a
    case Acquire(_) => l.pc.Idle?
    case Lock => l.pc.Waits? && l.pc.k.svc !in s.holder
    case SetWorks => l.pc.Claimed?
    case SetFailed => l.pc.Claimed?
    case Next(k) => l.pc.Idle? && k in l.open
    case Stop(k) => l.pc.Idle? && k in l.open
    case CallEnd => l.pc.Ending?
    case Release => l.pc.Releasing?
    case Unlock => l.pc.Unlocking?
  }

  /** The list without `k`. */
  function Without(live: seq<Key>, k: Key): seq<Key> {
    if live == [] then [] else (if live[0] == k then [] else [live[0]]) + Without(live[1..], k)
  }

  function Step(s: State, t: Thread, l: Local): State { s.(threads := s.threads[t := l]) }

  function Logs(s: State, t: Thread, k: Key, e: Event): map<Cursor, seq<Event>> {
    var c := CursorOf(s, t, k);
    s.logs[c := LogOf(s, c) + [e]]
  }

  function Do(s: State, t: Thread, a: Action): State
    requires Enabled(s, t, a)
  {
    var l := Of(s, t);
    match a
    case Acquire(k) =>
      if Conflict(s, l, k) then s
      else Step(s, t, l.(live := l.live + [k], pc := if k.svc in s.process then Waits(k) else Claimed(k)))
    case Lock => Step(s, t, l.(pc := Claimed(l.pc.k))).(holder := s.holder[l.pc.k.svc := t])
    case SetWorks =>
      Step(s, t, l.(open := l.open + {l.pc.k}, pc := Idle)).(logs := Logs(s, t, l.pc.k, Set(User(t, l.pc.k))))
    case SetFailed => Step(s, t, l.(pc := Releasing(l.pc.k))).(logs := Logs(s, t, l.pc.k, SetFails))
    case Next(k) => s.(logs := Logs(s, t, k, Get(User(t, k))))
    case Stop(k) => Step(s, t, l.(open := l.open - {k}, pc := Ending(k)))
    case CallEnd => Step(s, t, l.(pc := Releasing(l.pc.k))).(logs := Logs(s, t, l.pc.k, End(User(t, l.pc.k))))
    case Release =>
      Step(s, t, l.(live := Without(l.live, l.pc.k), pc := if l.pc.k.svc in s.process then Unlocking(l.pc.k) else Idle))
    case Unlock => Step(s, t, l.(pc := Idle)).(holder := s.holder - {l.pc.k.svc})
  }

  /** Between which calls a cursor is, if each came in its place: nobody's, or an iterator's. */
  function Scan(log: seq<Event>): Option<Option<User>>
    decreases |log|
  {
    if log == [] then Some(None) else
    var before := Scan(log[..|log| - 1]);
    if before.None? then None else After(before.value, log[|log| - 1])
  }

  function After(u: Option<User>, e: Event): Option<Option<User>> {
    match e
    case Set(v) => if u.None? then Some(Some(v)) else None
    case SetFails => if u.None? then Some(None) else None
    case Get(v) => if u == Some(v) then Some(u) else None
    case End(v) => if u == Some(v) then Some(None) else None
  }

  lemma ScanOne(log: seq<Event>, e: Event)
    ensures Scan(log + [e]) == if Scan(log).None? then None else After(Scan(log).value, e)
  {
    assert (log + [e])[..|log|] == log;
  }

  predicate NoDup(live: seq<Key>) { forall i, j :: 0 <= i < j < |live| ==> live[i] != live[j] }

  predicate Names(pc: Pc, k: Key) { (pc.Waits? || pc.Claimed? || pc.Ending? || pc.Releasing?) && pc.k == k }

  /** A thread's list has what it has open and what it is opening or closing, once each, */
  ghost predicate Listed(l: Local) {
    NoDup(l.live) && forall k :: k in l.live <==> k in l.open || Names(l.pc, k)
  }

  /** and a process-scoped service at most once. */
  ghost predicate Sole(process: set<Service>, l: Local) {
    && (forall k :: k in l.open ==> !Names(l.pc, k))
    && (forall j, k :: j in l.live && k in l.live && j.svc == k.svc && j.svc in process ==> j == k)
    && (l.pc.Waits? || l.pc.Unlocking? ==> l.pc.k.svc in process)
    && (l.pc.Unlocking? ==> forall k :: k in l.live ==> k.svc != l.pc.k.svc)
  }

  ghost predicate LocalInv(process: set<Service>, l: Local) { Listed(l) && Sole(process, l) }

  /** The thread is inside the service's lock. */
  ghost predicate Inside(l: Local, svc: Service) {
    || (exists k :: k in l.open && k.svc == svc)
    || ((l.pc.Claimed? || l.pc.Ending? || l.pc.Releasing? || l.pc.Unlocking?) && l.pc.k.svc == svc)
  }

  ghost predicate Locks(s: State) {
    forall svc, t :: svc in s.process ==> ((svc in s.holder && s.holder[svc] == t) <==> Inside(Of(s, t), svc))
  }

  /** An iterator that has been set and not yet ended. */
  predicate Reading(l: Local, k: Key) { k in l.open || l.pc == Ending(k) }

  ghost predicate Cursors(s: State) {
    && (forall t, k :: Reading(Of(s, t), k) ==> Scan(LogOf(s, CursorOf(s, t, k))) == Some(Some(User(t, k))))
    && (forall c :: Scan(LogOf(s, c)).Some?)
    && (forall c :: Scan(LogOf(s, c)).Some? && Scan(LogOf(s, c)).value.Some? ==>
          var u := Scan(LogOf(s, c)).value.value;
          CursorOf(s, u.t, u.k) == c && Reading(Of(s, u.t), u.k))
  }

  ghost predicate Inv(s: State) {
    (forall t :: LocalInv(s.process, Of(s, t))) && Locks(s) && Cursors(s)
  }

  lemma {:induction false} WithoutHas(live: seq<Key>, k: Key, j: Key)
    ensures j in Without(live, k) <==> j in live && j != k
    decreases |live|
  {
    if live != [] {
      WithoutHas(live[1..], k, j);
      assert live == [live[0]] + live[1..];
    }
  }

  lemma NoDupCons(k: Key, live: seq<Key>)
    requires NoDup(live) && k !in live
    ensures NoDup([k] + live)
  {
  }

  lemma {:induction false} WithoutIs(live: seq<Key>, k: Key)
    requires NoDup(live)
    ensures NoDup(Without(live, k)) && forall j :: j in Without(live, k) <==> j in live && j != k
    decreases |live|
  {
    hide Without;
    forall j
      ensures j in Without(live, k) <==> j in live && j != k
    {
      WithoutHas(live, k, j);
    }
    WithoutCons(live, k);
    if live != [] {
      WithoutIs(live[1..], k);
      WithoutHas(live[1..], k, live[0]);
      if live[0] != k { NoDupCons(live[0], Without(live[1..], k)); }
    }
  }

  lemma WithoutCons(live: seq<Key>, k: Key)
    ensures Without(live, k) ==
      if live == [] then [] else if live[0] == k then Without(live[1..], k) else [live[0]] + Without(live[1..], k)
  {
    if live != [] && live[0] == k { assert [] + Without(live[1..], k) == Without(live[1..], k); }
  }

  lemma NoConflict(s: State, l: Local, k: Key)
    requires !Conflict(s, l, k)
    ensures forall j :: j in l.live ==> j != k && (k.svc in s.process ==> j.svc != k.svc)
  {
  }

  lemma ListedKept(s: State, t: Thread, a: Action)
    requires LocalInv(s.process, Of(s, t)) && Enabled(s, t, a)
    ensures Listed(Of(Do(s, t, a), t))
  {
    hide Without, Conflict;
    var l := Of(s, t);
    if a.Release? { WithoutIs(l.live, l.pc.k); }
    if a.Acquire? && !Conflict(s, l, a.k) { NoConflict(s, l, a.k); }
  }

  lemma SoleKept(s: State, t: Thread, a: Action)
    requires LocalInv(s.process, Of(s, t)) && Enabled(s, t, a)
    ensures Sole(s.process, Of(Do(s, t, a), t))
  {
    hide Without, Conflict, NoDup;
    var l := Of(s, t);
    if a.Release? { WithoutIs(l.live, l.pc.k); }
    if a.Acquire? && !Conflict(s, l, a.k) { NoConflict(s, l, a.k); }
  }

  lemma InsideAfter(s: State, t: Thread, a: Action, svc: Service)
    requires LocalInv(s.process, Of(s, t)) && Enabled(s, t, a) && svc in s.process
    ensures Inside(Of(Do(s, t, a), t), svc) <==>
      if a.Lock? && svc == Of(s, t).pc.k.svc then true
      else if a.Unlock? && svc == Of(s, t).pc.k.svc then false
      else Inside(Of(s, t), svc)
  {
    hide Without, NoDup;
    var l, m := Of(s, t), Of(Do(s, t, a), t);
    if exists k :: k in l.open && k.svc == svc {
      var k :| k in l.open && k.svc == svc;
      if a.Stop? && a.k == k { assert m.pc == Ending(k); } else { assert k in m.open; }
    }
    if a.SetWorks? && l.pc.k.svc == svc { assert l.pc.k in m.open; }
  }

  lemma HolderAfter(s: State, t: Thread, a: Action, svc: Service, u: Thread)
    requires Enabled(s, t, a)
    ensures var s' := Do(s, t, a);
      (svc in s'.holder && s'.holder[svc] == u) <==>
        if a.Lock? && svc == Of(s, t).pc.k.svc then u == t
        else if a.Unlock? && svc == Of(s, t).pc.k.svc then false
        else svc in s.holder && s.holder[svc] == u
  {
    hide Without, Conflict;
  }

  lemma LocksKept(s: State, t: Thread, a: Action)
    requires LocalInv(s.process, Of(s, t)) && Locks(s) && Enabled(s, t, a)
    ensures Locks(Do(s, t, a))
  {
    hide LocalInv, Inside, Do;
    var s' := Do(s, t, a);
    forall svc, u | svc in s'.process
      ensures (svc in s'.holder && s'.holder[svc] == u) <==> Inside(Of(s', u), svc)
    {
      OthersSame(s, t, a, u);
      HolderAfter(s, t, a, svc, u);
      if u == t { InsideAfter(s, t, a, svc); }
      if a.Unlock? && svc == Of(s, t).pc.k.svc { UnlockingInside(Of(s, t)); }
    }
  }

  lemma UnlockingInside(l: Local)
    requires l.pc.Unlocking?
    ensures Inside(l, l.pc.k.svc)
  {
  }

  lemma ReadingAfter(s: State, t: Thread, a: Action, k: Key)
    requires LocalInv(s.process, Of(s, t)) && Enabled(s, t, a)
    ensures Reading(Of(Do(s, t, a), t), k) <==>
      (a.SetWorks? && k == Of(s, t).pc.k) || (Reading(Of(s, t), k) && !(a.CallEnd? && k == Of(s, t).pc.k))
  {
    hide Without, NoDup;
  }

  /** An iterator that is being read is on another cursor than the one a thread is about to set. */
  lemma AnotherCursor(s: State, t: Thread, u: User)
    requires Inv(s) && Of(s, t).pc.Claimed? && Reading(Of(s, u.t), u.k)
    ensures CursorOf(s, u.t, u.k) != CursorOf(s, t, Of(s, t).pc.k)
  {
    hide Cursors, NoDup;
    var k := Of(s, t).pc.k;
    assert LocalInv(s.process, Of(s, t)) && LocalInv(s.process, Of(s, u.t));
    assert k in Of(s, t).live && u.k in Of(s, u.t).live && (k != u.k || t != u.t);
    assert Inside(Of(s, t), k.svc) && Inside(Of(s, u.t), u.k.svc);
  }

  lemma NobodyReads(s: State, t: Thread)
    requires Inv(s) && Of(s, t).pc.Claimed?
    ensures Scan(LogOf(s, CursorOf(s, t, Of(s, t).pc.k))) == Some(None)
  {
    hide Scan, LogOf, Locks, LocalInv, Reading;
    var scan := Scan(LogOf(s, CursorOf(s, t, Of(s, t).pc.k)));
    if scan.value.Some? { AnotherCursor(s, t, scan.value.value); }
  }

  /** The call a step makes on a cursor, if any. */
  function Called(s: State, t: Thread, a: Action): Option<(Key, Event)>
    requires Enabled(s, t, a)
  {
    var l := Of(s, t);
    match a
    case SetWorks => Some((l.pc.k, Set(User(t, l.pc.k))))
    case SetFailed => Some((l.pc.k, SetFails))
    case Next(k) => Some((k, Get(User(t, k))))
    case CallEnd => Some((l.pc.k, End(User(t, l.pc.k))))
    case _ => None
  }

  lemma LogAfter(s: State, t: Thread, a: Action, c: Cursor)
    requires Enabled(s, t, a)
    ensures var call := Called(s, t, a);
      LogOf(Do(s, t, a), c) ==
        if call.Some? && c == CursorOf(s, t, call.value.0) then LogOf(s, c) + [call.value.1] else LogOf(s, c)
  {
    hide Without, Conflict;
  }

  lemma {:induction false} ScanAfter(s: State, t: Thread, a: Action, c: Cursor)
    requires Inv(s) && Enabled(s, t, a)
    ensures var call := Called(s, t, a);
      Scan(LogOf(Do(s, t, a), c)) ==
        if call.Some? && c == CursorOf(s, t, call.value.0) then
          Some(if a.SetWorks? || a.Next? then Some(User(t, call.value.0)) else None)
        else Scan(LogOf(s, c))
  {
    hide Scan, Do, Locks, LocalInv, LogOf;
    LogAfter(s, t, a, c);
    var call := Called(s, t, a);
    if call.Some? && c == CursorOf(s, t, call.value.0) {
      ScanOne(LogOf(s, c), call.value.1);
      if a.SetWorks? || a.SetFailed? { NobodyReads(s, t); } else { assert Reading(Of(s, t), call.value.0); }
    }
  }

  lemma {:induction false} ReadersKept(s: State, t: Thread, a: Action, u: Thread, k: Key)
    requires Inv(s) && Enabled(s, t, a) && Reading(Of(Do(s, t, a), u), k)
    ensures Scan(LogOf(Do(s, t, a), CursorOf(s, u, k))) == Some(Some(User(u, k)))
  {
    hide Scan, Locks, LogOf, Do;
    OthersSame(s, t, a, u);
    ScanAfter(s, t, a, CursorOf(s, u, k));
    if u == t { ReadingAfter(s, t, a, k); }
    var call := Called(s, t, a);
    if call.Some? && CursorOf(s, u, k) == CursorOf(s, t, call.value.0) {
      var key := call.value.0;
      if a.SetWorks? || a.SetFailed? {
        if Reading(Of(s, u), k) { AnotherCursor(s, t, User(u, k)); }
      } else {
        assert Reading(Of(s, t), key);
        if Reading(Of(s, u), k) { assert User(u, k) == User(t, key); }
      }
    }
  }

  lemma OthersSame(s: State, t: Thread, a: Action, u: Thread)
    requires Enabled(s, t, a)
    ensures u != t ==> Of(Do(s, t, a), u) == Of(s, u)
    ensures Do(s, t, a).process == s.process
  {
    hide Without, Conflict;
  }

  lemma {:induction false} CursorsKept(s: State, t: Thread, a: Action)
    requires Inv(s) && Enabled(s, t, a)
    ensures Cursors(Do(s, t, a))
  {
    hide Scan, LogOf, Do, Locks, LocalInv, Reading;
    var s' := Do(s, t, a);
    OthersSame(s, t, a, t);
    forall u, k | Reading(Of(s', u), k)
      ensures Scan(LogOf(s', CursorOf(s', u, k))) == Some(Some(User(u, k)))
    {
      ReadersKept(s, t, a, u, k);
    }
    forall c
      ensures var scan := Scan(LogOf(s', c));
        scan.Some? && (scan.value.Some? ==>
          CursorOf(s', scan.value.value.t, scan.value.value.k) == c
          && Reading(Of(s', scan.value.value.t), scan.value.value.k))
    {
      ScanAfter(s, t, a, c);
      var scan := Scan(LogOf(s', c));
      if scan.value.Some? {
        var u := scan.value.value;
        OthersSame(s, t, a, u.t);
        if u.t == t { StillReads(s, t, a, u.k); }
      }
    }
  }

  /** A thread that reads a cursor, or sets one, goes on reading until it ends it. */
  lemma StillReads(s: State, t: Thread, a: Action, k: Key)
    requires LocalInv(s.process, Of(s, t)) && Enabled(s, t, a)
    ensures Reading(Of(s, t), k) && !(a.CallEnd? && k == Of(s, t).pc.k) ==> Reading(Of(Do(s, t, a), t), k)
    ensures a.SetWorks? ==> Reading(Of(Do(s, t, a), t), Of(s, t).pc.k)
    ensures a.Next? ==> Reading(Of(Do(s, t, a), t), a.k)
  {
    hide Do, LocalInv;
    ReadingAfter(s, t, a, k);
    if a.SetWorks? { ReadingAfter(s, t, a, Of(s, t).pc.k); }
    if a.Next? { ReadingAfter(s, t, a, a.k); }
  }

  lemma LocalParts(process: set<Service>, l: Local)
    requires Listed(l) && Sole(process, l)
    ensures LocalInv(process, l)
  {
  }

  lemma {:induction false} InvKept(s: State, t: Thread, a: Action)
    requires Inv(s) && Enabled(s, t, a)
    ensures Inv(Do(s, t, a)) && Do(s, t, a).process == s.process
  {
    hide Locks, Cursors, LocalInv, Do, Enabled;
    CursorsKept(s, t, a);
    LocksKept(s, t, a);
    OthersSame(s, t, a, t);
    forall u
      ensures LocalInv(s.process, Of(Do(s, t, a), u))
    {
      OthersSame(s, t, a, u);
      if u == t {
        ListedKept(s, t, a);
        SoleKept(s, t, a);
        LocalParts(s.process, Of(Do(s, t, a), t));
      }
    }
  }

  /** Steps taken by threads in turn. */
  ghost predicate Run(s: State, acts: seq<(Thread, Action)>, s': State)
    decreases |acts|
  {
    if acts == [] then s == s'
    else Enabled(s, acts[0].0, acts[0].1) && Run(Do(s, acts[0].0, acts[0].1), acts[1..], s')
  }

  lemma InitInv(process: set<Service>)
    ensures Inv(Init(process))
  {
    var s := Init(process);
    assert forall c: Cursor :: LogOf(s, c) == [];
  }

  lemma {:induction false} RunInv(s: State, acts: seq<(Thread, Action)>, s': State)
    requires Inv(s) && Run(s, acts, s')
    ensures Inv(s') && s'.process == s.process
    decreases |acts|
  {
    hide Inv, Enabled, Do;
    if acts != [] {
      InvKept(s, acts[0].0, acts[0].1);
      RunInv(Do(s, acts[0].0, acts[0].1), acts[1..], s');
    }
  }

  lemma Reached(process: set<Service>, acts: seq<(Thread, Action)>, s: State)
    requires Run(Init(process), acts, s)
    ensures Inv(s) && s.process == process
  {
    hide Run, Inv, Init;
    InitInv(process);
    RunInv(Init(process), acts, s);
    ProcessOf(process);
  }

  lemma ProcessOf(process: set<Service>)
    ensures Init(process).process == process
  {
  }

  /** Every reachable state. No two iterators that have been set and not ended are on one cursor. */
  lemma OneReader(process: set<Service>, acts: seq<(Thread, Action)>, s: State, u: User, v: User)
    requires Run(Init(process), acts, s) && Reading(Of(s, u.t), u.k) && Reading(Of(s, v.t), v.k)
    requires CursorOf(s, u.t, u.k) == CursorOf(s, v.t, v.k)
    ensures u == v
  {
    hide Run, Init, Scan, LogOf, Locks, LocalInv;
    Reached(process, acts, s);
  }

  /** Every reachable state, a thread between calls. A new enumeration is refused, and then nothing changes, exactly
      when the thread itself has an iterator open on the cursor it would use. Otherwise the claim is listed,
      and it goes on to the lock of a process-scoped service or straight to `set*ent`. */
  lemma RefusedExactly(process: set<Service>, acts: seq<(Thread, Action)>, s: State, t: Thread, k: Key)
    requires Run(Init(process), acts, s) && Of(s, t).pc.Idle?
    ensures Do(s, t, Acquire(k)) == s <==> exists j :: j in Of(s, t).open && CursorOf(s, t, j) == CursorOf(s, t, k)
    ensures Do(s, t, Acquire(k)) != s ==>
      var l := Of(Do(s, t, Acquire(k)), t);
      l.open == Of(s, t).open && l.pc == if k.svc in process then Waits(k) else Claimed(k)
  {
    hide Run, Init, Locks, Cursors, Sole, NoDup;
    Reached(process, acts, s);
    var l := Of(s, t);
    assert LocalInv(s.process, l);
    ConflictMeans(s, t, k);
    if !Conflict(s, l, k) { assert |Of(Do(s, t, Acquire(k)), t).live| == |l.live| + 1; }
  }

  lemma ConflictMeans(s: State, t: Thread, k: Key)
    requires Listed(Of(s, t)) && Of(s, t).pc.Idle?
    ensures Conflict(s, Of(s, t), k) <==> exists j :: j in Of(s, t).open && CursorOf(s, t, j) == CursorOf(s, t, k)
  {
    hide NoDup;
    var l := Of(s, t);
    if Conflict(s, l, k) {
      var i :| 0 <= i < |l.live| && l.live[i].svc == k.svc && (k.svc in s.process || l.live[i].db == k.db);
      assert l.live[i] in l.open && CursorOf(s, t, l.live[i]) == CursorOf(s, t, k);
    }
    if j :| j in l.open && CursorOf(s, t, j) == CursorOf(s, t, k) {
      assert j in l.live;
      var i :| 0 <= i < |l.live| && l.live[i] == j;
      assert l.live[i].svc == k.svc;
    }
  }

  function Sets(log: seq<Event>): nat
    decreases |log|
  {
    if log == [] then 0 else Sets(log[..|log| - 1]) + if log[|log| - 1].Set? then 1 else 0
  }

  function Ends(log: seq<Event>): nat
    decreases |log|
  {
    if log == [] then 0 else Ends(log[..|log| - 1]) + if log[|log| - 1].End? then 1 else 0
  }

  /** What it means for a cursor's calls to have come in their place: every call but a first one is by the
      iterator whose `set*ent` was the last to succeed, and each of those is ended once, the last
      perhaps not yet. */
  lemma {:induction false} ScanCounts(log: seq<Event>)
    requires Scan(log).Some?
    ensures Sets(log) == Ends(log) + if Scan(log).value.Some? then 1 else 0
    decreases |log|
  {
    if log != [] { ScanCounts(log[..|log| - 1]); }
  }

  /** Every reachable state, every cursor. Its calls are runs of one `set*ent`, any number of `get*ent` and one
      `end*ent` by the same iterator, never interleaved with another's; a run that has no end yet is that
      of the iterator now on the cursor. */
  lemma CursorRuns(process: set<Service>, acts: seq<(Thread, Action)>, s: State, c: Cursor)
    requires Run(Init(process), acts, s)
    ensures var log := LogOf(s, c);
      && Scan(log).Some?
      && Sets(log) == Ends(log) + (if Scan(log).value.Some? then 1 else 0)
      && (Scan(log).value.Some? ==>
            var u := Scan(log).value.value; CursorOf(s, u.t, u.k) == c && Reading(Of(s, u.t), u.k))
  {
    hide Run, Init, Scan, LogOf, Locks, LocalInv;
    Reached(process, acts, s);
    ScanCounts(LogOf(s, c));
  }

  /** Every reachable state. No thread waits for a lock it holds. */
  lemma NoSelfWait(process: set<Service>, acts: seq<(Thread, Action)>, s: State, t: Thread)
    requires Run(Init(process), acts, s) && Of(s, t).pc.Waits?
    ensures var svc := Of(s, t).pc.k.svc; svc in process && !(svc in s.holder && s.holder[svc] == t)
  {
    hide Run, Init, Cursors, NoDup;
    Reached(process, acts, s);
    assert LocalInv(s.process, Of(s, t));
  }

  /** A step of a thread that is not held up: on with what it is doing, or the end of an iterator. */
  function Onward(l: Local, k: Key): Action {
    match l.pc
    case Idle => Stop(k)
    case Waits(_) => Lock
    case Claimed(_) => SetWorks
    case Ending(_) => CallEnd
    case Releasing(_) => Release
    case Unlocking(_) => Unlock
  }

  /** With one process-scoped service, or none, no reachable state is deadlocked: a thread that waits, waits for
      one that can go on. */
  lemma NoDeadlock(process: set<Service>, acts: seq<(Thread, Action)>, s: State, t: Thread) returns (u: Thread, a: Action)
    requires Run(Init(process), acts, s) && !Of(s, t).pc.Idle?
    requires forall p, q :: p in process && q in process ==> p == q
    ensures Enabled(s, u, a) && !a.Acquire?
    ensures u == if Of(s, t).pc.Waits? && Of(s, t).pc.k.svc in s.holder then s.holder[Of(s, t).pc.k.svc] else t
  {
    hide Run, Init, Cursors, NoDup, Listed;
    Reached(process, acts, s);
    u := t;
    if Of(s, t).pc.Waits? {
      NoSelfWait(process, acts, s, t);
      var svc := Of(s, t).pc.k.svc;
      if svc in s.holder {
        u := s.holder[svc];
        assert Inside(Of(s, u), svc);
        assert LocalInv(s.process, Of(s, u));
        if Of(s, u).pc.Waits? { NoSelfWait(process, acts, s, u); }
      }
    }
    var l := Of(s, u);
    if l.pc.Idle? {
      var k :| k in l.open;
      a := Stop(k);
    } else {
      a := Onward(l, Key(0, Passwd));
    }
  }

  lemma {:induction false} RunMore(s: State, acts: seq<(Thread, Action)>, m: State, t: Thread, a: Action)
    requires Run(s, acts, m) && Enabled(m, t, a)
    ensures Run(s, acts + [(t, a)], Do(m, t, a))
    decreases |acts|
  {
    hide Enabled, Do;
    var all := acts + [(t, a)];
    if acts == [] {
      assert all[1..] == [];
      assert Run(Do(m, t, a), [], Do(m, t, a));
    } else {
      assert all[0] == acts[0] && all[1..] == acts[1..] + [(t, a)];
      RunMore(Do(s, acts[0].0, acts[0].1), acts[1..], m, t, a);
    }
  }

  /** A thread with nothing live opens an iterator of a process-scoped service whose lock is free. */
  lemma OpensOne(s: State, acts: seq<(Thread, Action)>, m: State, t: Thread, k: Key)
    returns (more: seq<(Thread, Action)>, m': State)
    requires Run(s, acts, m) && t !in m.threads && k.svc in m.process && k.svc !in m.holder
    ensures Run(s, more, m') && m'.process == m.process
    ensures m'.threads == m.threads[t := Local([k], {k}, Idle)] && m'.holder == m.holder[k.svc := t]
  {
    hide Run;
    var m1 := Do(m, t, Acquire(k));
    RunMore(s, acts, m, t, Acquire(k));
    assert [] + [k] == [k];
    assert m1.threads == m.threads[t := Local([k], {}, Waits(k))] && m1.holder == m.holder;
    var m2 := Do(m1, t, Lock);
    RunMore(s, acts + [(t, Acquire(k))], m1, t, Lock);
    assert m2.threads == m.threads[t := Local([k], {}, Claimed(k))];
    m' := Do(m2, t, SetWorks);
    RunMore(s, acts + [(t, Acquire(k))] + [(t, Lock)], m2, t, SetWorks);
    assert {} + {k} == {k};
    assert m'.threads == m.threads[t := Local([k], {k}, Idle)];
    more := acts + [(t, Acquire(k))] + [(t, Lock)] + [(t, SetWorks)];
  }

  /** Why one: two process-scoped services, taken in opposite orders by two threads, can stop both for good. */
  lemma TwoCanDeadlock(process: set<Service>, p: Service, q: Service) returns (acts: seq<(Thread, Action)>, s: State)
    requires p in process && q in process && p != q
    ensures Run(Init(process), acts, s) && s.threads.Keys == {0, 1}
    ensures Of(s, 0).pc.Waits? && Of(s, 1).pc.Waits?
    ensures forall t, a :: t in s.threads ==> !Enabled(s, t, a)
  {
    hide Run;
    var j, k := Key(p, Passwd), Key(q, Passwd);
    RunNone(Init(process));
    var a1, s1 := OpensOne(Init(process), [], Init(process), 0, j);
    var a2, s2 := OpensOne(Init(process), a1, s1, 1, k);
    var s3 := Do(s2, 0, Acquire(k));
    RunMore(Init(process), a2, s2, 0, Acquire(k));
    assert s3.threads == s2.threads[0 := Local([j] + [k], {j}, Waits(k))];
    s := Do(s3, 1, Acquire(j));
    RunMore(Init(process), a2 + [(0, Acquire(k))], s3, 1, Acquire(j));
    acts := a2 + [(0, Acquire(k))] + [(1, Acquire(j))];
    assert s.threads == s3.threads[1 := Local([k] + [j], {k}, Waits(j))];
  }

  lemma RunNone(s: State)
    ensures Run(s, [], s)
  {
  }
}
