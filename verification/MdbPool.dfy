/** The pool of LMDB environments: one slot for each path, each under a lock of its own, shared by any number
    of threads that open, clone and drop `Env`s. A state machine over every interleaving of their steps. */
module MdbPool {
  import opened Wrappers

  type Path = nat
  type SlotId = nat
  type EnvId = nat
  type Handle = nat
  type CallId = nat

  /** An `MDB_env`: whether LMDB has the path open with it, and how often it has been closed. */
  datatype Mdb = Mdb(open: bool, closes: nat)

  /** A call that has the slot and waits for its lock. A clone borrows its `Env`, a drop owns it. */
  datatype Want = WantOpen | WantClone(e: EnvId) | WantDrop(e: EnvId)

  /** How far the call that holds the lock has got. */
  datatype Inside =
    | Free
    | Opening | Created(h: Handle) | Opened(h: Handle) | Stored(h: Handle)
    | Cloning(e: EnvId)
    | Dropping(e: EnvId)
    | Closing(h: Handle)    // the last `Env` is gone
    | Closed
    | Leaving               // the guard is about to go

  /** A path's slot: the handle and the count that the lock guards, the live `Env`s with the handle each holds,
      the calls on it, and every `MDB_env` ever created for it. */
  datatype Slot = Slot(path: Path, env: Option<Handle>, refcnt: int, users: map<EnvId, Handle>,
                       waiting: map<CallId, Want>, inside: Inside, mdbs: map<Handle, Mdb>)

  datatype State = State(pool: map<Path, SlotId>, slots: map<SlotId, Slot>)

  function Init(): State { State(map[], map[]) }

  /** A step on one slot. */
  datatype Step =
    | Arrive(c: CallId, want: Want) | Enter(c: CallId)
    | Share(e: EnvId) | Create(h: Handle) | CreateFails | OpenFails | OpenWorks | Store | Count(e: EnvId)
    | Bump(e: EnvId)
    | Decrement | Close | Clear
    | Unlock

  predicate Uses(w: Want, e: EnvId) { !w.WantOpen? && w.e == e }

  predicate Enabled(s: Slot, a: Step) {
    match a
    case Arrive(c, want) =>
      && c !in s.waiting
      && (match want
          case WantOpen => true
          case WantClone(e) =>
            e in s.users && s.inside != Dropping(e) && forall k :: k in s.waiting ==> s.waiting[k] != WantDrop(e)
          case WantDrop(e) =>
            && e in s.users && s.inside != Dropping(e) && s.inside != Cloning(e)
            && forall k :: k in s.waiting ==> !Uses(s.waiting[k], e))
    case Enter(c) => c in s.waiting && s.inside.Free?
    case Share(e) => s.inside.Opening? && s.env.Some? && e !in s.users
    case Create(h) => s.inside.Opening? && s.env.None? && h !in s.mdbs
    case CreateFails => s.inside.Opening? && s.env.None?
    case OpenFails => s.inside.Created? && s.inside.h in s.mdbs
    case OpenWorks => s.inside.Created? && s.inside.h in s.mdbs
    case Store => s.inside.Opened?
    case Count(e) => s.inside.Stored? && e !in s.users
    case Bump(e) => s.inside.Cloning? && s.inside.e in s.users && e !in s.users
    case Decrement => s.inside.Dropping? && s.inside.e in s.users
    case Close => s.inside.Closing? && s.inside.h in s.mdbs
    case Clear => s.inside.Closed?
    case Unlock => s.inside.Leaving?
  }

  function Entered(w: Want): Inside {
    match w
    case WantOpen => Opening
    case WantClone(e) => Cloning(e)
    case WantDrop(e) => Dropping(e)
  }

  function Shut(mdbs: map<Handle, Mdb>, h: Handle): map<Handle, Mdb>
    requires h in mdbs
  {
    mdbs[h := Mdb(false, mdbs[h].closes + 1)]
  }

  function Do(s: Slot, a: Step): Slot
    requires Enabled(s, a)
  {
    match a
    case Arrive(c, want) => s.(waiting := s.waiting[c := want])
    case Enter(c) => s.(waiting := s.waiting - {c}, inside := Entered(s.waiting[c]))
    case Share(e) => s.(refcnt := s.refcnt + 1, users := s.users[e := s.env.value], inside := Leaving)
    case Create(h) => s.(mdbs := s.mdbs[h := Mdb(false, 0)], inside := Created(h))
    case CreateFails => s.(inside := Leaving)
    case OpenFails => s.(mdbs := Shut(s.mdbs, s.inside.h), inside := Leaving)
    case OpenWorks => s.(mdbs := s.mdbs[s.inside.h := s.mdbs[s.inside.h].(open := true)], inside := Opened(s.inside.h))
    case Store => s.(env := Some(s.inside.h), inside := Stored(s.inside.h))
    case Count(e) => s.(refcnt := 1, users := s.users[e := s.inside.h], inside := Leaving)
    case Bump(e) => s.(refcnt := s.refcnt + 1, users := s.users[e := s.users[s.inside.e]], inside := Leaving)
    case Decrement =>
      s.(refcnt := s.refcnt - 1, users := s.users - {s.inside.e},
         inside := if s.refcnt - 1 != 0 then Leaving else Closing(s.users[s.inside.e]))
    case Close => s.(mdbs := Shut(s.mdbs, s.inside.h), inside := Closed)
    case Clear => s.(env := None, inside := Leaving)
    case Unlock => s.(inside := Free)
  }

  /** How many `Env`s are live. */
  function Size(users: map<EnvId, Handle>): nat { |users| }

  /** The count is the number of live `Env`s, and the slot is empty exactly when there are none. */
  predicate Settled(s: Slot) { s.refcnt == Size(s.users) && (s.env.None? <==> Size(s.users) == 0) }

  /** What the slot holds, given what is going on inside its lock. */
  predicate Counted(s: Slot) {
    match s.inside
    case Created(_) => s.env.None? && Size(s.users) == 0 && s.refcnt == 0
    case Opened(_) => s.env.None? && Size(s.users) == 0 && s.refcnt == 0
    case Stored(h) => s.env == Some(h) && Size(s.users) == 0 && s.refcnt == 0
    case Closing(h) => s.env == Some(h) && Size(s.users) == 0 && s.refcnt == 0
    case Closed => s.env.Some? && Size(s.users) == 0 && s.refcnt == 0
    case _ => Settled(s)
  }

  /** Every live `Env` holds the handle in its slot. */
  predicate Current(s: Slot) { forall e :: e in s.users ==> s.env == Some(s.users[e]) }

  /** A handle that has not been closed is in the slot, or in the hands of the call that holds the lock. */
  predicate KeptOne(s: Slot, h: Handle)
    requires h in s.mdbs
  {
    && s.mdbs[h].closes <= 1 && (s.mdbs[h].open ==> s.mdbs[h].closes == 0)
    && (s.mdbs[h].closes == 0 ==> s.env == Some(h) || s.inside == Created(h) || s.inside == Opened(h))
  }

  predicate Kept(s: Slot) { (forall h :: h in s.mdbs ==> KeptOne(s, h)) && InHand(s) }

  /** The handle in the slot is open until it is closed, and one that is being opened has not been closed. */
  predicate InHand(s: Slot) {
    && (s.env.Some? ==>
          s.env.value in s.mdbs && s.mdbs[s.env.value] == if s.inside.Closed? then Mdb(false, 1) else Mdb(true, 0))
    && (s.inside.Created? ==> s.inside.h in s.mdbs && s.mdbs[s.inside.h] == Mdb(false, 0))
    && (s.inside.Opened? ==> s.inside.h in s.mdbs && s.mdbs[s.inside.h] == Mdb(true, 0))
  }

  /** Calls are made on `Env`s that live, and one that is being dropped is in no other call. */
  ghost predicate Borrowed(s: Slot) {
    && (forall c :: c in s.waiting ==> s.waiting[c].WantOpen? || s.waiting[c].e in s.users)
    && (s.inside.Cloning? || s.inside.Dropping? ==> s.inside.e in s.users)
    && (forall c, k :: c in s.waiting && k in s.waiting && c != k && s.waiting[c].WantDrop? ==>
          !Uses(s.waiting[k], s.waiting[c].e))
    && (forall c :: c in s.waiting ==>
          && (s.inside.Dropping? ==> !Uses(s.waiting[c], s.inside.e))
          && (s.inside.Cloning? ==> s.waiting[c] != WantDrop(s.inside.e)))
  }

  ghost predicate SlotInv(s: Slot) { Counted(s) && Current(s) && Kept(s) && Borrowed(s) }

  lemma OneMore(users: map<EnvId, Handle>, e: EnvId, h: Handle)
    requires e !in users
    ensures Size(users[e := h]) == Size(users) + 1
  {
  }

  lemma OneLess(users: map<EnvId, Handle>, e: EnvId)
    requires e in users
    ensures Size(users - {e}) == Size(users) - 1
  {
    assert users == (users - {e})[e := users[e]];
  }

  lemma CountedKept(s: Slot, a: Step)
    requires Counted(s) && Current(s) && Enabled(s, a)
    ensures Counted(Do(s, a))
  {
    hide Shut, Size;
    if a.Share? { OneMore(s.users, a.e, s.env.value); }
    if a.Count? { OneMore(s.users, a.e, s.inside.h); }
    if a.Bump? { OneMore(s.users, a.e, s.users[s.inside.e]); }
    if a.Decrement? { OneLess(s.users, s.inside.e); }
  }

  lemma CurrentKept(s: Slot, a: Step)
    requires Counted(s) && Current(s) && Enabled(s, a)
    ensures Current(Do(s, a))
  {
    hide Shut;
  }

  lemma KeptKept(s: Slot, a: Step)
    requires Counted(s) && Current(s) && Kept(s) && Enabled(s, a)
    ensures Kept(Do(s, a))
  {
    hide Size, InHand, KeptOne, Do;
    forall h | h in Do(s, a).mdbs
      ensures KeptOne(Do(s, a), h)
    {
      KeptOneKept(s, a, h);
    }
    InHandKept(s, a);
  }

  lemma KeptOneKept(s: Slot, a: Step, h: Handle)
    requires Counted(s) && Current(s) && Kept(s) && Enabled(s, a) && h in Do(s, a).mdbs
    ensures KeptOne(Do(s, a), h)
  {
    hide Size;
  }

  lemma InHandKept(s: Slot, a: Step)
    requires Counted(s) && Current(s) && InHand(s) && Enabled(s, a)
    ensures InHand(Do(s, a))
  {
    hide Size;
  }

  lemma BorrowedKept(s: Slot, a: Step)
    requires SlotInv(s) && Enabled(s, a)
    ensures Borrowed(Do(s, a))
  {
    hide Kept, Current, Counted, Shut, Size;
  }

  lemma SlotInvKept(s: Slot, a: Step)
    requires SlotInv(s) && Enabled(s, a)
    ensures SlotInv(Do(s, a)) && Do(s, a).path == s.path
  {
    CountedKept(s, a);
    CurrentKept(s, a);
    KeptKept(s, a);
    BorrowedKept(s, a);
    hide Counted, Current, Kept, Borrowed;
  }

  /** An open finds its slot through the pool, under the pool's lock; everything else is a step on a slot. */
  datatype Action = Lookup(path: Path, spare: SlotId, c: CallId) | On(id: SlotId, step: Step)

  function Empty(path: Path): Slot { Slot(path, None, 0, map[], map[], Free, map[]) }

  predicate Can(s: State, a: Action) {
    match a
    case Lookup(path, spare, c) =>
      if path in s.pool then s.pool[path] in s.slots && Enabled(s.slots[s.pool[path]], Arrive(c, WantOpen))
      else spare !in s.slots
    case On(id, step) => id in s.slots && !(step.Arrive? && step.want.WantOpen?) && Enabled(s.slots[id], step)
  }

  function Next(s: State, a: Action): State
    requires Can(s, a)
  {
    match a
    case Lookup(path, spare, c) =>
      if path in s.pool then
        s.(slots := s.slots[s.pool[path] := Do(s.slots[s.pool[path]], Arrive(c, WantOpen))])
      else
        State(s.pool[path := spare], s.slots[spare := Do(Empty(path), Arrive(c, WantOpen))])
    case On(id, step) => s.(slots := s.slots[id := Do(s.slots[id], step)])
  }

  /** A path has one slot, for the life of the process. */
  predicate OneSlot(s: State) {
    && (forall p :: p in s.pool ==> s.pool[p] in s.slots && s.slots[s.pool[p]].path == p)
    && (forall id :: id in s.slots ==> s.slots[id].path in s.pool && s.pool[s.slots[id].path] == id)
  }

  ghost predicate Inv(s: State) { OneSlot(s) && forall id :: id in s.slots ==> SlotInv(s.slots[id]) }

  lemma EmptyInv(path: Path)
    ensures SlotInv(Empty(path))
  {
  }

  /** The slot that an action changes, before and after. */
  lemma Changed(s: State, a: Action) returns (id: SlotId, slot: Slot)
    requires Inv(s) && Can(s, a)
    ensures SlotInv(slot) && Next(s, a).slots == s.slots[id := slot]
    ensures if id in s.slots then Next(s, a).pool == s.pool && slot.path == s.slots[id].path
            else slot.path !in s.pool && Next(s, a).pool == s.pool[slot.path := id]
  {
    hide SlotInv, Do, Enabled;
    if a.On? {
      id, slot := a.id, Do(s.slots[a.id], a.step);
      SlotInvKept(s.slots[a.id], a.step);
    } else if a.path in s.pool {
      id := s.pool[a.path];
      slot := Do(s.slots[id], Arrive(a.c, WantOpen));
      SlotInvKept(s.slots[id], Arrive(a.c, WantOpen));
    } else {
      EmptyInv(a.path);
      EmptyTakes(a.path, a.c);
      id, slot := a.spare, Do(Empty(a.path), Arrive(a.c, WantOpen));
      SlotInvKept(Empty(a.path), Arrive(a.c, WantOpen));
    }
  }

  lemma InvKept(s: State, a: Action)
    requires Inv(s) && Can(s, a)
    ensures Inv(Next(s, a))
  {
    hide SlotInv, Can, Next, OneSlot;
    var id, slot := Changed(s, a);
    OneSlotKept(s, Next(s, a), id, slot);
  }

  lemma OneSlotKept(s: State, s': State, id: SlotId, slot: Slot)
    requires OneSlot(s) && s'.slots == s.slots[id := slot]
    requires if id in s.slots then s'.pool == s.pool && slot.path == s.slots[id].path
             else slot.path !in s.pool && s'.pool == s.pool[slot.path := id]
    ensures OneSlot(s')
  {
  }

  lemma EmptyTakes(path: Path, c: CallId)
    ensures Enabled(Empty(path), Arrive(c, WantOpen))
  {
  }

  ghost predicate Run(s: State, acts: seq<Action>, t: State)
    decreases |acts|
  {
    if acts == [] then s == t else Can(s, acts[0]) && Run(Next(s, acts[0]), acts[1..], t)
  }

  lemma {:induction false} RunInv(s: State, acts: seq<Action>, t: State)
    requires Inv(s) && Run(s, acts, t)
    ensures Inv(t)
    decreases |acts|
  {
    hide Inv, Can, Next;
    if acts != [] {
      InvKept(s, acts[0]);
      RunInv(Next(s, acts[0]), acts[1..], t);
    }
  }

  lemma ReachableSlot(acts: seq<Action>, s: State, id: SlotId)
    requires Run(Init(), acts, s) && id in s.slots
    ensures SlotInv(s.slots[id])
  {
    hide Run, SlotInv;
    RunInv(Init(), acts, s);
  }

  predicate IsOpen(s: State, id: SlotId, h: Handle) {
    id in s.slots && h in s.slots[id].mdbs && s.slots[id].mdbs[h].open
  }

  /** Every reachable state. LMDB has at most one handle open on a path, whatever is inside the path's lock. */
  lemma OneHandlePerPath(acts: seq<Action>, s: State, i: SlotId, j: SlotId, h: Handle, k: Handle)
    requires Run(Init(), acts, s) && IsOpen(s, i, h) && IsOpen(s, j, k) && s.slots[i].path == s.slots[j].path
    ensures i == j && h == k
  {
    hide Run, Borrowed, Current, Size;
    RunInv(Init(), acts, s);
    assert SlotInv(s.slots[i]);
  }

  /** Every reachable state. With its lock free, a slot counts exactly its live `Env`s and is empty exactly
      when there are none. A live `Env` always holds the handle in its slot, which is open and has never
      been closed. */
  lemma LiveEnvs(acts: seq<Action>, s: State, id: SlotId)
    requires Run(Init(), acts, s) && id in s.slots
    ensures var slot := s.slots[id];
      && (slot.inside.Free? ==> slot.refcnt == |slot.users| && (slot.env.None? <==> slot.users == map[]))
      && (forall e :: e in slot.users ==>
            slot.env == Some(slot.users[e]) && slot.users[e] in slot.mdbs && slot.mdbs[slot.users[e]] == Mdb(true, 0))
  {
    hide Run, Inv, Borrowed;
    ReachableSlot(acts, s, id);
    var slot := s.slots[id];
    if slot.inside.Closed? { assert slot.users == map[]; }
  }

  lemma SlotCloses(s: Slot)
    requires SlotInv(s) && Enabled(s, Close)
    ensures s.users == map[] && s.env == Some(s.inside.h) && s.mdbs[s.inside.h].closes == 0
    ensures forall c :: c in s.waiting ==> s.waiting[c].WantOpen?
  {
  }

  lemma SlotShut(s: Slot)
    requires SlotInv(s)
    ensures forall h :: h in s.mdbs ==> s.mdbs[h].closes <= 1
    ensures s.inside.Free? && s.users == map[] ==> forall h :: h in s.mdbs ==> s.mdbs[h] == Mdb(false, 1)
  {
    hide Borrowed, Current;
  }

  /** Every reachable state. No handle is closed twice; one is closed only when no live `Env` holds it and no
      call is left on any; and once a free slot has no `Env` left, every handle it ever had has been
      closed, one that failed to open included. */
  lemma ClosedOnce(acts: seq<Action>, s: State, id: SlotId)
    requires Run(Init(), acts, s) && id in s.slots
    ensures var slot := s.slots[id];
      && (forall h :: h in slot.mdbs ==> slot.mdbs[h].closes <= 1)
      && (Enabled(slot, Close) ==>
            slot.users == map[] && slot.env == Some(slot.inside.h) && slot.mdbs[slot.inside.h].closes == 0
            && forall c :: c in slot.waiting ==> slot.waiting[c].WantOpen?)
      && (slot.inside.Free? && slot.users == map[] ==> forall h :: h in slot.mdbs ==> slot.mdbs[h] == Mdb(false, 1))
  {
    hide Run, SlotInv, Inv;
    ReachableSlot(acts, s, id);
    if Enabled(s.slots[id], Close) { SlotCloses(s.slots[id]); }
    SlotShut(s.slots[id]);
  }

  /** How many steps the call inside a lock still takes. */
  function Left(inside: Inside): (n: nat)
    ensures n <= 5
  {
    match inside
    case Free => 0
    case Opening => 5
    case Created(_) => 4
    case Opened(_) => 3
    case Stored(_) => 2
    case Cloning(_) => 2
    case Dropping(_) => 4
    case Closing(_) => 3
    case Closed => 2
    case Leaving => 1
  }

  /** The step that a call inside the lock takes next. `e` and `h` are unused names. */
  function Onward(s: Slot, e: EnvId, h: Handle): Step {
    match s.inside
    case Opening => if s.env.Some? then Share(e) else Create(h)
    case Created(_) => OpenWorks
    case Opened(_) => Store
    case Stored(_) => Count(e)
    case Cloning(_) => Bump(e)
    case Dropping(_) => Decrement
    case Closing(_) => Close
    case Closed => Clear
    case _ => Unlock
  }

  lemma SlotGoesOn(s: Slot, e: EnvId, h: Handle)
    requires SlotInv(s) && !s.inside.Free? && e !in s.users && h !in s.mdbs
    ensures Enabled(s, Onward(s, e, h))
  {
    hide Current, Size;
  }

  lemma SlotLets(s: Slot)
    requires s.inside.Free?
    ensures forall c :: c in s.waiting ==> Enabled(s, Enter(c))
  {
  }

  lemma StepsLeft(s: Slot, a: Step)
    requires Enabled(s, a) && !a.Arrive? && !a.Enter?
    ensures Left(Do(s, a).inside) < Left(s.inside)
  {
    hide Shut;
  }

  /** No lock is held for ever: whoever is inside one can go on, and every step it takes, none
      of which waits for another lock, brings it closer to the way out, which is at most five off; and a free
      lock lets any waiting call in. */
  lemma LocksAreLeft(acts: seq<Action>, s: State, id: SlotId, a: Step, e: EnvId, h: Handle)
    requires Run(Init(), acts, s) && id in s.slots && e !in s.slots[id].users && h !in s.slots[id].mdbs
    ensures var slot := s.slots[id];
      && (!slot.inside.Free? ==> Enabled(slot, Onward(slot, e, h)))
      && (Enabled(slot, a) && !a.Arrive? && !a.Enter? ==> Left(Do(slot, a).inside) < Left(slot.inside))
      && (slot.inside.Free? ==> forall c :: c in slot.waiting ==> Enabled(slot, Enter(c)))
  {
    hide Run, SlotInv, Inv, Enabled, Do, Left;
    ReachableSlot(acts, s, id);
    if s.slots[id].inside.Free? { SlotLets(s.slots[id]); } else { SlotGoesOn(s.slots[id], e, h); }
    if Enabled(s.slots[id], a) && !a.Arrive? && !a.Enter? { StepsLeft(s.slots[id], a); }
  }
}
