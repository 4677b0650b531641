/** The pool and the transactions together: what the pool does to the `Env`s of its slots are steps that the
    machine of the transactions has, and the close that machine waits for is the pool's. */
module MdbJoin {
  import P = MdbPool
  import T = MdbTxn
  import opened Wrappers

  /** A handle is in use from the count of its first `Env` to its close. */
  predicate InUse(slot: P.Slot, h: P.Handle) {
    slot.env == Some(h) && !slot.inside.Stored? && !slot.inside.Closed?
  }

  /** Both machines have the same live `Env`s in a slot, with the same handles, and the same handles in use. */
  ghost predicate SlotAgrees(slot: P.Slot, id: P.SlotId, x: T.State) {
    && (forall e :: T.EnvId(id, e) in x.envs <==> e in slot.users)
    && (forall e :: T.EnvId(id, e) in x.envs ==> x.envs[T.EnvId(id, e)] == T.Handle(id, slot.users[e]))
    && (forall h :: T.Handle(id, h) in x.open <==> InUse(slot, h))
  }

  /** The slot of an id, which is empty until the pool has one. */
  function SlotOf(s: P.State, id: P.SlotId): P.Slot { if id in s.slots then s.slots[id] else P.Empty(0) }

  ghost predicate Agrees(s: P.State, x: T.State) { forall id :: SlotAgrees(SlotOf(s, id), id, x) }

  /** The steps that open, clone, drop or close. */
  predicate Moves(a: P.Step) { a.Share? || a.Count? || a.Bump? || a.Decrement? || a.Close? }

  /** The step of the transactions' machine that such a step is. An `Env` goes when its owner drops it, or as the
      last field of the iterator that has it. */
  predicate Same(slot: P.Slot, id: P.SlotId, a: P.Step, x: T.State, act: T.Action)
    requires P.Enabled(slot, a)
  {
    match a
    case Share(e) => act == T.Open(T.EnvId(id, e), T.Handle(id, slot.env.value))
    case Count(e) => act == T.Open(T.EnvId(id, e), T.Handle(id, slot.inside.h))
    case Bump(e) => act == T.Open(T.EnvId(id, e), T.Handle(id, slot.users[slot.inside.e]))
    case Decrement =>
      || act == T.DropEnv(T.EnvId(id, slot.inside.e))
      || (act.On? && act.step.Over? && T.Of(x, act.t).pc == T.AtEnv(T.EnvId(id, slot.inside.e)))
    case Close => act == T.Close(T.Handle(id, slot.inside.h))
    case _ => false
  }

  lemma AgreesOpened(slot: P.Slot, slot': P.Slot, id: P.SlotId, x: T.State, x': T.State, e: P.EnvId, h: P.Handle)
    requires SlotAgrees(slot, id, x)
    requires slot'.users == slot.users[e := h] && x'.envs == x.envs[T.EnvId(id, e) := T.Handle(id, h)]
    requires x'.open == x.open + {T.Handle(id, h)} && forall k :: InUse(slot', k) <==> InUse(slot, k) || k == h
    ensures SlotAgrees(slot', id, x')
  {
    hide InUse;
  }

  lemma AgreesDropped(slot: P.Slot, slot': P.Slot, id: P.SlotId, x: T.State, x': T.State, e: P.EnvId)
    requires SlotAgrees(slot, id, x)
    requires slot'.users == slot.users - {e} && x'.envs == x.envs - {T.EnvId(id, e)}
    requires x'.open == x.open && forall k :: InUse(slot', k) <==> InUse(slot, k)
    ensures SlotAgrees(slot', id, x')
  {
    hide InUse;
  }

  lemma AgreesClosed(slot: P.Slot, slot': P.Slot, id: P.SlotId, x: T.State, x': T.State, h: P.Handle)
    requires SlotAgrees(slot, id, x)
    requires slot'.users == slot.users && x'.envs == x.envs
    requires x'.open == x.open - {T.Handle(id, h)} && forall k :: InUse(slot', k) <==> InUse(slot, k) && k != h
    ensures SlotAgrees(slot', id, x')
  {
    hide InUse;
  }

  lemma SlotMoves(slot: P.Slot, id: P.SlotId, a: P.Step, x: T.State, act: T.Action)
    requires P.Counted(slot) && P.Current(slot) && P.Enabled(slot, a) && SlotAgrees(slot, id, x)
    requires Same(slot, id, a, x, act) && T.Can(x, act)
    ensures SlotAgrees(P.Do(slot, a), id, T.Next(x, act))
  {
    hide SlotAgrees, P.Size, P.Shut, T.Do, T.Enabled, T.Unnamed, T.Untaken, T.Of;
    var slot', x' := P.Do(slot, a), T.Next(x, act);
    match a
    case Share(e) => AgreesOpened(slot, slot', id, x, x', e, slot.env.value);
    case Count(e) => AgreesOpened(slot, slot', id, x, x', e, slot.inside.h);
    case Bump(e) => AgreesOpened(slot, slot', id, x, x', e, slot.users[slot.inside.e]);
    case Decrement => AgreesDropped(slot, slot', id, x, x', slot.inside.e);
    case Close => AgreesClosed(slot, slot', id, x, x', slot.inside.h);
  }

  lemma SlotStays(slot: P.Slot, id: P.SlotId, a: P.Step, x: T.State)
    requires P.Counted(slot) && P.Enabled(slot, a) && SlotAgrees(slot, id, x) && !Moves(a)
    ensures SlotAgrees(P.Do(slot, a), id, x)
  {
    hide P.Shut, P.Size;
  }

  /** A step on one slot changes nothing in another. */
  lemma OtherSlots(slot: P.Slot, id: P.SlotId, a: P.Step, x: T.State, act: T.Action, other: P.SlotId, slot': P.Slot)
    requires P.Enabled(slot, a) && Same(slot, id, a, x, act) && T.Can(x, act) && other != id
    requires SlotAgrees(slot', other, x)
    ensures SlotAgrees(slot', other, T.Next(x, act))
  {
    hide InUse, T.Do, T.Enabled, T.Unnamed, T.Untaken;
  }

  /** What the pool opens, clones and closes is allowed at once: an id that is not in use, a handle that no live
      `Env` holds. Whether an `Env` may go is for its owner. */
  lemma Allowed(s: P.State, id: P.SlotId, a: P.Step, x: T.State, act: T.Action)
    requires P.Inv(s) && id in s.slots && P.Enabled(s.slots[id], a) && Agrees(s, x)
    requires Same(s.slots[id], id, a, x, act) && !a.Decrement?
    ensures T.Can(x, act)
  {
    hide P.Borrowed, P.Kept;
    var slot := s.slots[id];
    assert SlotAgrees(SlotOf(s, id), id, x);
    if a.Close? {
      assert P.SlotInv(slot) && slot.users == map[];
      forall e | e in x.envs
        ensures x.envs[e] != act.handle
      {
        assert SlotAgrees(SlotOf(s, e.slot), e.slot, x);
        assert e == T.EnvId(e.slot, e.n);
      }
    }
  }

  lemma StepMoves(s: P.State, a: P.Action, x: T.State, act: T.Action)
    requires P.Inv(s) && P.Can(s, a) && Agrees(s, x) && a.On?
    requires Same(s.slots[a.id], a.id, a.step, x, act) && T.Can(x, act)
    ensures Agrees(P.Next(s, a), T.Next(x, act))
  {
    hide P.Counted, P.Current, P.Borrowed, P.Kept, P.Enabled, P.Do, Same, SlotAgrees, T.Can, T.Next;
    var slot := s.slots[a.id];
    assert P.SlotInv(slot) && SlotOf(s, a.id) == slot;
    forall id
      ensures SlotAgrees(SlotOf(P.Next(s, a), id), id, T.Next(x, act))
    {
      if id == a.id { SlotMoves(slot, id, a.step, x, act); }
      else { OtherSlots(slot, a.id, a.step, x, act, id, SlotOf(s, id)); }
    }
  }

  lemma StepStays(s: P.State, a: P.Action, x: T.State)
    requires P.Inv(s) && P.Can(s, a) && Agrees(s, x) && !(a.On? && Moves(a.step))
    ensures Agrees(P.Next(s, a), x)
  {
    hide P.Counted, P.Current, P.Borrowed, P.Kept, P.Do, SlotAgrees;
    var id := if a.On? then a.id else if a.path in s.pool then s.pool[a.path] else a.spare;
    var step := if a.On? then a.step else P.Arrive(a.c, P.WantOpen);
    assert SlotAgrees(SlotOf(s, id), id, x);
    if id in s.slots {
      assert P.SlotInv(s.slots[id]);
      SlotStays(s.slots[id], id, step, x);
    } else {
      NewSlot(a.path, id, x);
      SlotStays(P.Empty(a.path), id, step, x);
    }
    assert forall k :: k != id ==> SlotOf(P.Next(s, a), k) == SlotOf(s, k);
  }

  lemma NewSlot(path: P.Path, id: P.SlotId, x: T.State)
    requires SlotAgrees(P.Empty(0), id, x)
    ensures SlotAgrees(P.Empty(path), id, x) && P.Counted(P.Empty(path))
  {
  }

  /** Every run of the pool, and any transactions that agree with it. A step that opens, clones or closes is one
      that the transactions' machine allows; a close in particular finds no live `Env` with its handle. Those
      and the drops leave the two in agreement, and every other step leaves the transactions alone. */
  lemma PoolStep(acts: seq<P.Action>, s: P.State, a: P.Action, x: T.State)
    requires P.Run(P.Init(), acts, s) && P.Can(s, a) && Agrees(s, x)
    ensures a.On? && Moves(a.step) ==>
      forall act :: Same(s.slots[a.id], a.id, a.step, x, act) ==>
        && (!a.step.Decrement? ==> T.Can(x, act))
        && (T.Can(x, act) ==> Agrees(P.Next(s, a), T.Next(x, act)))
    ensures !(a.On? && Moves(a.step)) ==> Agrees(P.Next(s, a), x)
  {
    hide P.Run, P.SlotInv, P.Next, P.Enabled, Same, Agrees, T.Can, T.Next;
    P.RunInv(P.Init(), acts, s);
    if a.On? && Moves(a.step) {
      forall act | Same(s.slots[a.id], a.id, a.step, x, act)
        ensures !a.step.Decrement? ==> T.Can(x, act)
        ensures T.Can(x, act) ==> Agrees(P.Next(s, a), T.Next(x, act))
      {
        if !a.step.Decrement? { Allowed(s, a.id, a.step, x, act); }
        if T.Can(x, act) { StepMoves(s, a, x, act); }
      }
    } else {
      StepStays(s, a, x);
    }
  }

  /** An event of the two together: the pool's own, one that both take part in, or a thread's own. An open, a
      clone or a close is taken when the pool can take it, and asks nothing of the transactions. */
  datatype Event = Pool(a: P.Action) | Both(a: P.Action, act: T.Action) | Thread(t: T.Thread, step: T.Step)

  datatype State = State(pool: P.State, txns: T.State)

  ghost predicate Takes(s: State, ev: Event, s': State) {
    match ev
    case Pool(a) => P.Can(s.pool, a) && !(a.On? && Moves(a.step)) && s' == State(P.Next(s.pool, a), s.txns)
    case Both(a, act) =>
      && P.Can(s.pool, a) && a.On? && Moves(a.step) && Same(s.pool.slots[a.id], a.id, a.step, s.txns, act)
      && (a.step.Decrement? ==> T.Can(s.txns, act))
      && s'.pool == P.Next(s.pool, a) && (T.Can(s.txns, act) ==> s'.txns == T.Next(s.txns, act))
    case Thread(t, step) =>
      !step.Over? && T.Can(s.txns, T.On(t, step)) && s' == State(s.pool, T.Next(s.txns, T.On(t, step)))
  }

  ghost predicate Run(states: seq<State>, evs: seq<Event>) {
    && |states| == |evs| + 1 && states[0] == State(P.Init(), T.Init())
    && forall i :: 0 <= i < |evs| ==> Takes(states[i], evs[i], states[i + 1])
  }

  ghost predicate Inv(s: State) { P.Inv(s.pool) && T.Inv(s.txns) && Agrees(s.pool, s.txns) }

  lemma Inited()
    ensures Inv(State(P.Init(), T.Init()))
  {
  }

  lemma StepAllowed(s: P.State, a: P.Action, x: T.State, act: T.Action)
    requires P.Inv(s) && P.Can(s, a) && Agrees(s, x) && a.On? && Same(s.slots[a.id], a.id, a.step, x, act)
    requires a.step.Decrement? ==> T.Can(x, act)
    ensures T.Can(x, act)
  {
    hide P.Inv, P.Enabled, Same, Agrees, T.Can;
    if !a.step.Decrement? { Allowed(s, a.id, a.step, x, act); }
  }

  lemma InvKept(s: State, ev: Event, s': State)
    requires Inv(s) && Takes(s, ev, s')
    ensures Inv(s')
  {
    hide P.Inv, P.Enabled, P.Next, T.Inv, T.Can, SlotAgrees, Same;
    match ev
    case Pool(a) =>
      P.InvKept(s.pool, a);
      StepStays(s.pool, a, s.txns);
    case Both(a, act) =>
      StepAllowed(s.pool, a, s.txns, act);
      P.InvKept(s.pool, a);
      T.InvKept(s.txns, act);
      StepMoves(s.pool, a, s.txns, act);
    case Thread(t, step) =>
      T.InvKept(s.txns, T.On(t, step));
      SameEnvs(s.pool, s.txns, s'.txns);
  }

  lemma SameEnvs(s: P.State, x: T.State, x': T.State)
    requires Agrees(s, x) && x'.envs == x.envs && x'.open == x.open
    ensures Agrees(s, x')
  {
    hide SlotOf, InUse;
    forall id
      ensures SlotAgrees(SlotOf(s, id), id, x')
    {
      assert SlotAgrees(SlotOf(s, id), id, x);
    }
  }

  lemma {:induction false} RunInv(states: seq<State>, evs: seq<Event>, k: nat)
    requires Run(states, evs) && k <= |evs|
    ensures Inv(states[k])
    decreases k
  {
    hide Inv, Takes;
    if k == 0 {
      Inited();
    } else {
      RunInv(states, evs, k - 1);
      InvKept(states[k - 1], evs[k - 1], states[k]);
    }
  }

  lemma LiveIsOpen(slot: P.Slot, e: P.EnvId)
    requires P.SlotInv(slot) && e in slot.users
    ensures var h := slot.users[e]; h in slot.mdbs && slot.mdbs[h] == P.Mdb(true, 0)
  {
    hide P.Borrowed;
    assert P.Size(slot.users) != 0;
  }

  /** Every run of the pool and the transactions together. A live transaction's `MDB_env` is one that the pool has
      open and has never closed, cursors or not, and the slot has a live `Env` for it. */
  lemma OpenInThePool(states: seq<State>, evs: seq<Event>, k: nat, t: T.Thread, g: T.GuardId)
    requires Run(states, evs) && k <= |evs| && g in T.Of(states[k].txns, t).guards
    ensures var guard := T.Of(states[k].txns, t).guards[g];
      var id, h := guard.handle.slot, guard.handle.n;
      var slots := states[k].pool.slots;
      && id in slots && guard.env.slot == id && guard.env.n in slots[id].users && slots[id].users[guard.env.n] == h
      && h in slots[id].mdbs && slots[id].mdbs[h] == P.Mdb(true, 0)
  {
    hide Takes, P.SlotInv, T.LocalInv, T.Sole, T.Clear, InUse;
    RunInv(states, evs, k);
    var s, x := states[k].pool, states[k].txns;
    var guard := T.Of(x, t).guards[g];
    var e := guard.env;
    assert T.Backed(x.threads[t], x.envs) && e == T.EnvId(e.slot, e.n);
    assert SlotAgrees(SlotOf(s, e.slot), e.slot, x);
    LiveIsOpen(s.slots[e.slot], e.n);
  }
}
