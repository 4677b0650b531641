/** Authentication driven one round at a time: the driver that holds a `Stepped` and the worker thread that
    runs the stack, as one state machine over every interleaving of their steps. Both channels are
    rendezvous, so a message moves in one step that both ends take together. */
module PamStep {
  import opened Wrappers

  datatype Message = Message(style: int, text: string)

  type Round = seq<Message>             // the messages of one prompt

  type Answers = seq<Option<string>>    // one response for each of them

  /** The conversation a transaction would prompt through. Whoever holds the channel holds its two ends. */
  datatype Conv = Original | Channel

  datatype Txn = Txn(name: nat, conv: Conv)

  /** How the module's operation ended. */
  datatype Verdict = Passed | Failed(code: int) | Panicked

  datatype Phase = Started | Prompting | Ended | Stopped

  /** What the reaping is for: a step's verdict, `finish`, or `Drop`. */
  datatype Purpose = ForStep | ForFinish | ForDrop

  datatype Stage = ReleasingAnswers | ReleasingEvents | Joining

  datatype Driver =
    | Fresh                      // the caller holds the transaction, and no exchange has begun
    | Idle                       // between calls
    | Sending(a: Answers, limited: bool)  // in `answers.send`
    | Receiving(limited: bool)   // in `events.recv`, or `events.recv_timeout`
    | Reaping(stage: Stage, purpose: Purpose)
    | Gone                       // the `Stepped` was consumed

  datatype Worker =
    | NoThread
    | Spawned                    // the transaction is still in the parcel
    | InModule                   // the stack runs
    | Offering(round: Round)     // in `events.send`, with a prompt
    | Listening                  // in `answers.recv`
    | Unwound(v: Verdict)        // the operation returned
    | Restored(v: Verdict)       // the caller's conversation is back; in `events.send`, with `Finished`
    | Exited(v: Verdict)

  datatype Reply = Nothing | Prompted(round: Round) | Succeeded | Refused(code: int) | TimedOut
                 | OutOfSequence | Unwinding | Returned

  /** The places a transaction can be: with the caller, on its way to the worker, in the worker, in the
      worker's result, in the `Stepped`, or ended. */
  datatype Places = Places(
    caller: Option<Txn>, parcel: Option<Txn>, stack: Option<Txn>, joinable: Option<Txn>, done: Option<Txn>,
    ended: Option<Txn>)

  /** Every round the module asked, the rounds the driver was given, the answers it gave in turn, and what
      each conversation returned: answers, or `None` for a cancellation. */
  datatype Log = Log(asked: seq<Round>, seen: seq<Round>, given: seq<Answers>, heard: seq<Option<Answers>>)

  /** `answers`, `events` and `handle` say which of its ends the `Stepped` still holds. */
  datatype State = State(
    at: Places, answers: bool, events: bool, handle: bool, phase: Phase,
    d: Driver, w: Worker, reply: Reply, log: Log)

  function Init(name: nat): State {
    State(Places(Some(Txn(name, Original)), None, None, None, None, None), false, false, false, Started,
          Fresh, NoThread, Nothing, Log([], [], [], []))
  }

  datatype Action =
    // Calls the driver's thread may make between calls.
    | Begin(recover: bool, failure: Option<int>) | Wait(limited: bool) | Respond(a: Answers, limited: bool) | Finish | Drop
    // The rest of those calls.
    | Timeout | Disconnected | SendFails | ReleaseAnswers | ReleaseEvents | Join
    // Both threads.
    | TakePrompt | TakeFinished | TakeAnswers
    // The worker.
    | Unpack | PromptFails | ListenFails | Restore | FinishedFails
    // The module.
    | Ask(round: Round) | Return(v: Verdict)

  predicate IsCall(a: Action) { a.Begin? || a.Wait? || a.Respond? || a.Finish? || a.Drop? }

  predicate Enabled(s: State, a: Action) {
    match a
    case Begin(_, _) => s.d.Fresh? && s.at.caller.Some?
    case Wait(_) => s.d.Idle?
    case Respond(_, _) => s.d.Idle?
    case Finish => s.d.Idle?
    case Drop => s.d.Idle?
    case Timeout => s.d == Receiving(true)
    // The worker holds a sender until it exits, the conversation another until it is replaced.
    case Disconnected => s.d.Receiving? && s.w.Exited?
    // The receiver of answers lives in the conversation.
    case SendFails => s.d.Sending? && (s.w.Restored? || s.w.Exited?)
    case ReleaseAnswers => s.d.Reaping? && s.d.stage.ReleasingAnswers?
    case ReleaseEvents => s.d.Reaping? && s.d.stage.ReleasingEvents?
    case Join => s.d.Reaping? && s.d.stage.Joining? && (s.handle ==> s.w.Exited?)
    case TakePrompt => s.d.Receiving? && s.w.Offering?
    case TakeFinished => s.d.Receiving? && s.w.Restored?
    case TakeAnswers => s.d.Sending? && s.w.Listening?
    case Unpack => s.w.Spawned?
    case PromptFails => s.w.Offering? && !s.events
    case ListenFails => s.w.Listening? && !s.answers
    case Restore => s.w.Unwound? && s.at.stack.Some?
    case FinishedFails => s.w.Restored? && !s.events
    case Ask(_) => s.w.InModule?
    case Return(_) => s.w.InModule?
  }

  function Report(v: Verdict): Reply {
    match v
    case Passed => Succeeded
    case Failed(code) => Refused(code)
    case Panicked => Unwinding
  }

  /** The end of `reap` or `drop`, once the worker, if it was still there, is joined. */
  function Joined(s: State): (t: State)
    requires Enabled(s, Join)
    ensures t.w == s.w && t.phase == s.phase && t.answers == s.answers && t.events == s.events && !t.handle
    ensures t.log == s.log && t.d == if s.d.purpose.ForStep? then Idle else Gone
  {
    var back := if s.handle then s.at.joinable else s.at.done;
    var at := s.at.(joinable := if s.handle then None else s.at.joinable, done := None);
    match s.d.purpose
    case ForStep =>
      s.(handle := false, at := at.(done := back), d := Idle, reply := if s.handle then Report(s.w.v) else Succeeded)
    case ForDrop => s.(handle := false, at := at.(ended := back), d := Gone, reply := Nothing)
    case ForFinish =>
      // A panic resumed from here unwinds through `finish`, which drops the `Stepped` and what it holds.
      if s.handle && s.w.v.Panicked? then
        s.(handle := false, at := at.(ended := back), d := Gone, reply := Unwinding)
      else
        s.(handle := false, at := at.(caller := back), d := Gone,
           reply := if back.Some? then Returned else OutOfSequence)
  }

  function Do(s: State, a: Action): State
    requires Enabled(s, a)
  {
    match a
    case Begin(recover, failure) =>
      if failure.None? then
        s.(at := s.at.(caller := None, parcel := Some(s.at.caller.value.(conv := Channel))),
           answers := true, events := true, handle := true, phase := Started, d := Idle, w := Spawned,
           reply := Nothing)
      else if recover then s.(d := Gone, reply := Refused(failure.value))
      else s.(at := s.at.(caller := None, ended := s.at.caller), d := Gone, reply := Refused(failure.value))
    case Wait(limited) =>
      if s.phase.Started? then s.(d := Receiving(limited), reply := Nothing) else s.(reply := OutOfSequence)
    case Respond(answers, limited) =>
      if s.phase.Prompting? then
        s.(d := Sending(answers, limited), log := s.log.(given := s.log.given + [answers]), reply := Nothing)
      else s.(reply := OutOfSequence)
    case Finish => s.(d := Reaping(ReleasingAnswers, ForFinish))
    case Drop => s.(d := Reaping(ReleasingAnswers, ForDrop))
    case Timeout => s.(d := Idle, phase := Stopped, reply := TimedOut)
    case Disconnected => s.(d := Reaping(ReleasingAnswers, ForStep), phase := Ended)
    case SendFails => s.(d := Reaping(ReleasingAnswers, ForStep), phase := Ended)
    case ReleaseAnswers => s.(answers := false, d := s.d.(stage := ReleasingEvents))
    case ReleaseEvents => s.(events := false, d := s.d.(stage := Joining))
    case Join => Joined(s)
    case TakePrompt =>
      s.(d := Idle, phase := Prompting, reply := Prompted(s.w.round), w := Listening,
         log := s.log.(seen := s.log.seen + [s.w.round]))
    case TakeFinished => Leave(s).(d := Reaping(ReleasingAnswers, ForStep), phase := Ended)
    case TakeAnswers =>
      s.(d := Receiving(s.d.limited), phase := Started, w := InModule,
         log := s.log.(heard := s.log.heard + [Some(s.d.a)]))
    case Unpack => s.(at := s.at.(parcel := None, stack := s.at.parcel), w := InModule)
    case PromptFails => s.(log := s.log.(heard := s.log.heard + [None]), w := InModule)
    case ListenFails => s.(log := s.log.(heard := s.log.heard + [None]), w := InModule)
    case Restore => s.(at := s.at.(stack := Some(s.at.stack.value.(conv := Original))), w := Restored(s.w.v))
    case FinishedFails => Leave(s)
    case Ask(round) => s.(log := s.log.(asked := s.log.asked + [round]), w := Offering(round))
    case Return(v) => s.(w := Unwound(v))
  }

  /** The worker's closure returns the transaction and the verdict. */
  function Leave(s: State): State
    requires s.w.Restored?
  {
    s.(at := s.at.(stack := None, joinable := s.at.stack), w := Exited(s.w.v))
  }

  /** The worker has neither been given a round's answers to wait for nor finished. */
  predicate Early(w: Worker) { w.Spawned? || w.InModule? || w.Offering? || w.Unwound? || w.Restored? }

  predicate Open(s: State) { s.answers && s.events && s.handle }

  predicate Shut(s: State) { !s.answers && !s.events && !s.handle }

  /** How the two threads' positions, the phase and the ends still held fit together. */
  predicate Fits(s: State) {
    match s.d
    case Fresh => Shut(s) && s.w.NoThread?
    case Idle =>
      (match s.phase
       case Prompting => Open(s) && s.w.Listening?
       case Ended => Shut(s) && s.w.Exited?
       case _ => Open(s) && Early(s.w))
    case Sending(_, _) => s.phase.Prompting? && Open(s) && s.w.Listening?
    case Receiving(_) => s.phase.Started? && Open(s) && Early(s.w)
    case Reaping(stage, purpose) =>
      && !s.w.NoThread? && (!s.handle || s.phase.Ended? ==> s.w.Exited?)
      && (purpose.ForStep? ==> s.phase.Ended? && s.handle && s.w.Exited?)
      && (stage.ReleasingAnswers? ==> s.answers == s.events == s.handle)
      && (stage.ReleasingEvents? ==> !s.answers && s.events == s.handle)
      && (stage.Joining? ==> !s.answers && !s.events)
    case Gone => Shut(s) && (s.w.NoThread? || s.w.Exited?)
  }

  predicate Holds(place: Option<Txn>, name: nat, here: bool, conv: Conv) {
    if here then place == Some(Txn(name, conv)) else place == None
  }

  predicate OnStack(w: Worker) { w.InModule? || w.Offering? || w.Listening? || w.Unwound? || w.Restored? }

  /** Where the transaction is, and through what it would prompt. */
  predicate Placed(s: State, name: nat) {
    && Holds(s.at.parcel, name, s.w.Spawned?, Channel)
    && Holds(s.at.stack, name, OnStack(s.w), if s.w.Restored? then Original else Channel)
    && Holds(s.at.joinable, name, s.w.Exited? && s.handle, Original)
    && Holds(s.at.done, name, s.w.Exited? && !s.handle && !s.d.Gone?, Original)
    && Holds(s.at.caller, name, s.d.Fresh? || (s.d.Gone? && s.at.ended.None?), Original)
    && Holds(s.at.ended, name, s.d.Gone? && s.at.caller.None?, Original)
  }

  /** The i-th conversation returned the i-th answers, for the first `n`, and the others were cancelled. */
  predicate Matched(given: seq<Answers>, heard: seq<Option<Answers>>, n: int) {
    && 0 <= n <= |given|
    && forall i :: 0 <= i < |heard| ==> heard[i] == if i < n then Some(given[i]) else None
  }

  /** How many answers have reached the module. */
  function Delivered(log: Log, d: Driver): int { |log.given| - if d.Sending? then 1 else 0 }

  /** What was asked, seen, given and heard is in step with the two threads; `open` while nothing has been cancelled. */
  predicate InStep(log: Log, d: Driver, w: Worker, open: bool) {
    var n := Delivered(log, d);
    && |log.asked| == |log.heard| + (if w.Offering? || w.Listening? then 1 else 0)
    && log.seen <= log.asked && |log.given| <= |log.seen| && 0 <= n <= |log.heard|
    && Matched(log.given, log.heard, n)
    && (w.Offering? ==> log.asked[|log.heard|] == w.round)
    && (w.Listening? ==> |log.seen| == |log.asked|)
    && (d.Sending? ==> log.given[|log.given| - 1] == d.a)
    && (open ==> |log.heard| == n && (!w.Listening? ==> |log.seen| == |log.heard|))
  }

  predicate Logged(s: State) { InStep(s.log, s.d, s.w, (s.answers && s.events) || s.phase.Ended?) }

  /** A reported verdict is the module's own, and a prompt in hand is the last one asked. */
  predicate Honest(s: State) {
    && (s.d.Idle? && s.reply.Prompted? ==>
          s.phase.Prompting? && |s.log.seen| > 0 && s.reply.round == s.log.seen[|s.log.seen| - 1])
    && (s.d.Idle? && s.reply.Succeeded? ==> s.w == Exited(Passed))
    && (s.d.Idle? && s.reply.Refused? ==> s.w == Exited(Failed(s.reply.code)))
  }

  predicate Inv(s: State, name: nat) {
    Fits(s) && Placed(s, name) && Logged(s) && Honest(s) && (s.w.NoThread? ==> s.log == Log([], [], [], []))
  }

  lemma InitInv(name: nat)
    ensures Inv(Init(name), name)
  {
  }

  lemma FitsKept(s: State, a: Action)
    requires Fits(s) && Enabled(s, a)
    ensures Fits(Do(s, a))
  {
    hide Joined;
  }

  lemma PlacedKept(s: State, name: nat, a: Action)
    requires Fits(s) && Placed(s, name) && Enabled(s, a)
    ensures Placed(Do(s, a), name)
  {
    hide Joined;
    if a.Join? { JoinPlaces(s, name); }
  }

  lemma JoinPlaces(s: State, name: nat)
    requires Fits(s) && Placed(s, name) && Enabled(s, Join)
    ensures Placed(Joined(s), name)
  {
  }

  lemma MatchedLonger(given: seq<Answers>, heard: seq<Option<Answers>>, n: int, a: Answers)
    requires Matched(given, heard, n)
    ensures Matched(given + [a], heard, n)
  {
  }

  lemma MatchedMore(given: seq<Answers>, heard: seq<Option<Answers>>)
    requires |given| == |heard| + 1 && Matched(given, heard, |heard|)
    ensures Matched(given, heard + [Some(given[|heard|])], |heard| + 1)
  {
  }

  lemma MatchedNone(given: seq<Answers>, heard: seq<Option<Answers>>, n: int)
    requires n <= |heard| && Matched(given, heard, n)
    ensures Matched(given, heard + [None], n)
  {
  }

  lemma LoggedKept(s: State, a: Action)
    requires Fits(s) && Logged(s) && Enabled(s, a)
    requires s.w.NoThread? ==> s.log == Log([], [], [], [])
    ensures Logged(Do(s, a))
  {
    hide Fits, Logged, Enabled, Do;
    if Logs(a) { LoggedSpoken(s, a); } else { LoggedSilent(s, a); }
  }

  /** The steps that the log records. */
  predicate Logs(a: Action) {
    a.Respond? || a.TakePrompt? || a.TakeAnswers? || a.PromptFails? || a.ListenFails? || a.Ask?
  }

  lemma LoggedSpoken(s: State, a: Action)
    requires Fits(s) && Logged(s) && Enabled(s, a) && Logs(a)
    ensures Logged(Do(s, a))
  {
    hide Joined, Matched;
    if a.Respond? { MatchedLonger(s.log.given, s.log.heard, Delivered(s.log, s.d), a.a); }
    if a.TakeAnswers? { MatchedMore(s.log.given, s.log.heard); }
    if a.PromptFails? || a.ListenFails? { MatchedNone(s.log.given, s.log.heard, Delivered(s.log, s.d)); }
  }

  lemma LoggedSilent(s: State, a: Action)
    requires Fits(s) && Logged(s) && Enabled(s, a) && !Logs(a)
    requires s.w.NoThread? ==> s.log == Log([], [], [], [])
    ensures Logged(Do(s, a))
  {
    hide Matched;
  }

  lemma HonestKept(s: State, a: Action)
    requires Fits(s) && Honest(s) && Enabled(s, a)
    ensures Honest(Do(s, a))
  {
  }

  lemma InvKept(s: State, name: nat, a: Action)
    requires Inv(s, name) && Enabled(s, a)
    ensures Inv(Do(s, a), name)
  {
    hide Fits, Placed, Logged, Honest, Do;
    FitsKept(s, a);
    PlacedKept(s, name, a);
    LoggedKept(s, a);
    HonestKept(s, a);
    QuietKept(s, a);
  }

  lemma QuietKept(s: State, a: Action)
    requires Enabled(s, a) && Fits(s) && (s.w.NoThread? ==> s.log == Log([], [], [], []))
    ensures Do(s, a).w.NoThread? ==> Do(s, a).log == Log([], [], [], [])
  {
    hide Joined;
  }

  /** `acts`, taken in order from `s`, are each possible and end in `t`. */
  ghost predicate Run(s: State, acts: seq<Action>, t: State)
    decreases |acts|
  {
    if acts == [] then s == t else Enabled(s, acts[0]) && Run(Do(s, acts[0]), acts[1..], t)
  }

  lemma {:induction false} RunInv(s: State, acts: seq<Action>, t: State, name: nat)
    requires Inv(s, name) && Run(s, acts, t)
    ensures Inv(t, name)
    decreases |acts|
  {
    hide Inv, Enabled, Do;
    if acts != [] {
      InvKept(s, name, acts[0]);
      RunInv(Do(s, acts[0]), acts[1..], t, name);
    }
  }

  function Here(place: Option<Txn>): nat { if place.Some? then 1 else 0 }

  function Owners(at: Places): nat {
    Here(at.caller) + Here(at.parcel) + Here(at.stack) + Here(at.joinable) + Here(at.done) + Here(at.ended)
  }

  predicate Untouched(place: Option<Txn>, name: nat) { place.Some? ==> place.value == Txn(name, Original) }

  /** Every reachable state. One party holds the transaction, which is the stack while the module runs and is
      never the driver meanwhile. Wherever a worker leaves it, and so wherever the caller can have it back or
      have it ended, it prompts through the caller's own conversation again. The branches for a
      worker that has gone, in `respond` and in `collect`, are never taken. */
  lemma Safe(name: nat, acts: seq<Action>, s: State)
    requires Run(Init(name), acts, s)
    ensures Owners(s.at) == 1
    ensures s.w.InModule? || s.w.Offering? || s.w.Listening? ==> s.at.stack == Some(Txn(name, Channel))
    ensures Untouched(s.at.joinable, name) && Untouched(s.at.done, name)
    ensures Untouched(s.at.caller, name) && Untouched(s.at.ended, name)
    ensures !Enabled(s, Disconnected) && !Enabled(s, SendFails)
  {
    hide Run, Init;
    InitInv(name);
    RunInv(Init(name), acts, s, name);
  }

  /** Every reachable state. The i-th vector that `respond` accepted is what the i-th conversation returned,
      for the i-th prompt the driver was shown; at most the last is still on its way, and every other
      conversation was cancelled. A prompt in hand is the one the module waits on. */
  lemma AnswersReachTheirPrompts(name: nat, acts: seq<Action>, s: State)
    requires Run(Init(name), acts, s)
    ensures forall i :: 0 <= i < |s.log.heard| && s.log.heard[i].Some? ==>
      (i < |s.log.given| && s.log.heard[i].value == s.log.given[i]
       && i < |s.log.seen| && i < |s.log.asked| && s.log.seen[i] == s.log.asked[i])
    ensures forall i :: 0 <= i < |s.log.given| ==>
      (if s.d.Sending? && i == |s.log.given| - 1 then s.log.given[i] == s.d.a && |s.log.heard| == i
       else i < |s.log.heard| && s.log.heard[i] == Some(s.log.given[i]))
    ensures s.d.Idle? && s.phase.Prompting? ==>
      s.w.Listening? && |s.log.seen| == |s.log.asked| == |s.log.given| + 1
  {
    hide Run, Init, Placed, Honest;
    InitInv(name);
    RunInv(Init(name), acts, s, name);
  }

  /** A verdict that a step reports rests on a whole exchange: every prompt was shown, and every one answered. */
  lemma VerdictIsWhole(name: nat, acts: seq<Action>, s: State)
    requires Run(Init(name), acts, s) && s.d.Idle? && s.phase.Ended?
    ensures s.log.seen == s.log.asked && |s.log.given| == |s.log.asked| == |s.log.heard|
    ensures forall i :: 0 <= i < |s.log.heard| ==> s.log.heard[i] == Some(s.log.given[i])
  {
    hide Run, Init, Placed, Honest;
    InitInv(name);
    RunInv(Init(name), acts, s, name);
  }

  /** The verdict that the worker carries, once the module has returned one. */
  function Carried(w: Worker): seq<Verdict> {
    match w
    case Unwound(v) => [v]
    case Restored(v) => [v]
    case Exited(v) => [v]
    case _ => []
  }

  /** What happened in a run, by its steps alone: what the module asked and returned, and the answers that were
      accepted, which is those given at a prompt. */
  datatype Trace = Trace(asked: seq<Round>, given: seq<Answers>, verdicts: seq<Verdict>)

  function Noted(s: State, a: Action): Trace {
    Trace(if a.Ask? then [a.round] else [],
         if a.Respond? && s.phase.Prompting? then [a.a] else [],
         if a.Return? then [a.v] else [])
  }

  function Then(x: Trace, y: Trace): Trace { Trace(x.asked + y.asked, x.given + y.given, x.verdicts + y.verdicts) }

  ghost function TraceOf(s: State, acts: seq<Action>): Trace
    decreases |acts|
  {
    if acts == [] || !Enabled(s, acts[0]) then Trace([], [], [])
    else Then(Noted(s, acts[0]), TraceOf(Do(s, acts[0]), acts[1..]))
  }

  function Held(s: State): Trace { Trace(s.log.asked, s.log.given, Carried(s.w)) }

  lemma HeldStep(s: State, a: Action)
    requires Enabled(s, a) && Fits(s)
    ensures Held(Do(s, a)) == Then(Held(s), Noted(s, a))
  {
    var l := s.log;
    assert l.asked + [] == l.asked && l.given + [] == l.given && Carried(s.w) + [] == Carried(s.w);
  }

  lemma ThenThen(x: Trace, y: Trace, z: Trace)
    ensures Then(Then(x, y), z) == Then(x, Then(y, z))
  {
    assert x.asked + y.asked + z.asked == x.asked + (y.asked + z.asked);
    assert x.given + y.given + z.given == x.given + (y.given + z.given);
    assert x.verdicts + y.verdicts + z.verdicts == x.verdicts + (y.verdicts + z.verdicts);
  }

  lemma {:induction false} HeldRun(s: State, name: nat, acts: seq<Action>, t: State)
    requires Inv(s, name) && Run(s, acts, t)
    ensures Held(t) == Then(Held(s), TraceOf(s, acts))
    decreases |acts|
  {
    hide Inv, Enabled, Do, Held, Noted;
    if acts == [] {
      ThenNothing(Held(s));
    } else {
      var m := Do(s, acts[0]);
      InvKept(s, name, acts[0]);
      InvFits(s, name);
      HeldStep(s, acts[0]);
      HeldRun(m, name, acts[1..], t);
      ThenThen(Held(s), Noted(s, acts[0]), TraceOf(m, acts[1..]));
    }
  }

  lemma ThenNothing(x: Trace)
    ensures Then(x, Trace([], [], [])) == x && Then(Trace([], [], []), x) == x
  {
    assert x.asked + [] == x.asked == [] + x.asked && x.given + [] == x.given == [] + x.given;
    assert x.verdicts + [] == x.verdicts == [] + x.verdicts;
  }

  lemma InvFits(s: State, name: nat)
    requires Inv(s, name)
    ensures Fits(s)
  {
  }

  /** Every run. The log has what the module asked and the answers that the caller gave at its prompts, in order, as
      they were; and the verdict that the worker brings back is the one that the module returned. */
  lemma NothingIsMadeUp(name: nat, acts: seq<Action>, s: State)
    requires Run(Init(name), acts, s)
    ensures Trace(s.log.asked, s.log.given, Carried(s.w)) == TraceOf(Init(name), acts)
  {
    hide Run, Inv, TraceOf;
    InitInv(name);
    HeldRun(Init(name), name, acts, s);
    ThenNothing(TraceOf(Init(name), acts));
  }

  /** What the caller of an exchange that has ended was told, unless it asked out of turn. */
  predicate Reports(s: State) {
    s.d.Idle? && s.phase.Ended? && !s.reply.OutOfSequence? ==>
      && (s.reply == Succeeded <==> Carried(s.w) == [Passed])
      && (s.reply == Unwinding <==> Carried(s.w) == [Panicked])
      && (s.reply.Refused? <==> s.w.Exited? && s.w.v.Failed?)
      && (s.reply.Refused? ==> s.reply.code == s.w.v.code)
  }

  lemma ReportsKept(s: State, a: Action)
    requires Fits(s) && Reports(s) && Enabled(s, a)
    ensures Reports(Do(s, a))
  {
  }

  lemma {:induction false} ReportsRun(s: State, name: nat, acts: seq<Action>, t: State)
    requires Inv(s, name) && Reports(s) && Run(s, acts, t)
    ensures Reports(t)
    decreases |acts|
  {
    hide Inv, Enabled, Do, Reports;
    if acts != [] {
      InvKept(s, name, acts[0]);
      InvFits(s, name);
      ReportsKept(s, acts[0]);
      ReportsRun(Do(s, acts[0]), name, acts[1..], t);
    }
  }

  /** Every run that has come to a verdict. The caller was told success exactly when the module returned it, a
      refusal exactly with the module's own code, and a panic exactly when the module raised one. */
  lemma VerdictIsTheModules(name: nat, acts: seq<Action>, s: State, code: int)
    requires Run(Init(name), acts, s) && s.d.Idle? && s.phase.Ended? && !s.reply.OutOfSequence?
    ensures var returned := TraceOf(Init(name), acts).verdicts;
      && (s.reply == Succeeded <==> returned == [Passed])
      && (s.reply == Refused(code) <==> returned == [Failed(code)])
      && (s.reply == Unwinding <==> returned == [Panicked])
  {
    hide Run, Inv, TraceOf;
    InitInv(name);
    RunInv(Init(name), acts, s, name);
    InvFits(s, name);
    ReportsRun(Init(name), name, acts, s);
    NothingIsMadeUp(name, acts, s);
  }

  /** A worker that cannot be started leaves nothing running and says why: `begin_recover` leaves the transaction
      with the caller, as it was, and `begin` ends it. Nothing further happens. */
  lemma FailedBegin(name: nat, recover: bool, code: int, acts: seq<Action>, s: State)
    requires Run(Init(name), [Begin(recover, Some(code))] + acts, s)
    ensures acts == [] && s.reply == Refused(code) && s.w.NoThread?
    ensures s.at.caller == (if recover then Some(Txn(name, Original)) else None)
    ensures s.at.ended == (if recover then None else Some(Txn(name, Original)))
  {
    var all := [Begin(recover, Some(code))] + acts;
    assert all[0] == Begin(recover, Some(code)) && all[1..] == acts;
    var t := Do(Init(name), all[0]);
    assert (forall a :: !Enabled(t, a)) && Run(t, acts, s);
  }

  /** What a call of `wait` or `respond` can leave behind. */
  predicate Outcome(phase: Phase, reply: Reply) {
    match phase
    case Prompting => reply.Prompted?
    case Stopped => reply.TimedOut?
    case Ended => reply.Succeeded? || reply.Refused? || reply.Unwinding?
    case Started => false
  }

  predicate InCall(s: State) {
    && (s.d.Idle? ==> Outcome(s.phase, s.reply))
    && !s.d.Fresh? && !s.d.Gone? && (s.d.Reaping? ==> s.d.purpose.ForStep?)
  }

  lemma InCallKept(s: State, name: nat, a: Action)
    requires Inv(s, name) && InCall(s) && Enabled(s, a) && !IsCall(a)
    ensures InCall(Do(s, a))
  {
    hide Placed, Logged;
  }

  lemma {:induction false} InCallRun(s: State, name: nat, acts: seq<Action>, t: State)
    requires Inv(s, name) && InCall(s) && Run(s, acts, t) && forall i :: 0 <= i < |acts| ==> !IsCall(acts[i])
    ensures InCall(t)
    decreases |acts|
  {
    hide Inv, InCall, Enabled, Do;
    if acts != [] {
      InvKept(s, name, acts[0]);
      InCallKept(s, name, acts[0]);
      InCallRun(Do(s, acts[0]), name, acts[1..], t);
    }
  }

  /** A call of `wait` is in sequence at `Started`, one of `respond` at `Prompting`. Then it leaves the exchange
      parked at a prompt, stopped by a timeout, or ended with a verdict, and says which. */
  lemma StepsOfAnExchange(name: nat, before: seq<Action>, s: State, a: Action, acts: seq<Action>, t: State)
    requires Run(Init(name), before, s) && s.d.Idle?
    requires (a.Wait? && s.phase.Started?) || (a.Respond? && s.phase.Prompting?)
    requires Run(Do(s, a), acts, t) && t.d.Idle?
    requires forall i :: 0 <= i < |acts| ==> !IsCall(acts[i])
    ensures Outcome(t.phase, t.reply)
  {
    hide Run, Init, Inv;
    InitInv(name);
    RunInv(Init(name), before, s, name);
    InvKept(s, name, a);
    InCallRun(Do(s, a), name, acts, t);
  }

  /** A call that asks to wait no longer than some time. */
  predicate Limits(a: Action) { (a.Wait? || a.Respond?) && a.limited }

  predicate Unhurried(s: State) {
    !s.phase.Stopped? && !s.reply.TimedOut? && (s.d.Sending? || s.d.Receiving? ==> !s.d.limited)
  }

  lemma UnhurriedKept(s: State, a: Action)
    requires Unhurried(s) && Enabled(s, a) && !Limits(a)
    ensures Unhurried(Do(s, a))
  {
  }

  lemma {:induction false} UnhurriedRun(s: State, acts: seq<Action>, t: State)
    requires Unhurried(s) && Run(s, acts, t) && forall i :: 0 <= i < |acts| ==> !Limits(acts[i])
    ensures Unhurried(t)
    decreases |acts|
  {
    hide Unhurried, Enabled, Do, Limits;
    if acts != [] {
      UnhurriedKept(s, acts[0]);
      UnhurriedRun(Do(s, acts[0]), acts[1..], t);
    }
  }

  /** Every run. Nothing times out unless a call asked for a limit. */
  lemma OnlyALimitTimesOut(name: nat, acts: seq<Action>, s: State)
    requires Run(Init(name), acts, s) && (s.phase.Stopped? || s.reply.TimedOut?)
    ensures exists i :: 0 <= i < |acts| && Limits(acts[i])
  {
    hide Run, Limits;
    if forall i :: 0 <= i < |acts| ==> !Limits(acts[i]) { UnhurriedRun(Init(name), acts, s); }
  }

  /** After a timeout the driver takes no further step. */
  predicate Halted(s: State) {
    s.phase.Stopped? && (s.d.Idle? || s.d.Gone? || (s.d.Reaping? && !s.d.purpose.ForStep?))
  }

  lemma HaltedKept(s: State, a: Action)
    requires Halted(s) && Enabled(s, a)
    ensures var t := Do(s, a); Halted(t) && t.log.given == s.log.given && t.log.seen == s.log.seen
  {
    hide Joined;
  }

  lemma {:induction false} HaltedRun(s: State, acts: seq<Action>, t: State)
    requires Halted(s) && Run(s, acts, t)
    ensures Halted(t) && t.log.given == s.log.given && t.log.seen == s.log.seen
    decreases |acts|
  {
    hide Enabled, Do;
    if acts != [] {
      HaltedKept(s, acts[0]);
      HaltedRun(Do(s, acts[0]), acts[1..], t);
    }
  }

  /** Whatever happens after a timeout, no answer is accepted, no prompt is shown, and every conversation
      that returns from then on returns a cancellation. */
  lemma NothingAfterTimeout(name: nat, acts: seq<Action>, s: State, more: seq<Action>, t: State)
    requires Run(Init(name), acts, s) && s.d.Idle? && s.reply.TimedOut? && s.phase.Stopped? && Run(s, more, t)
    ensures t.log.given == s.log.given && t.log.seen == s.log.seen
    ensures forall i :: |s.log.heard| <= i < |t.log.heard| ==> t.log.heard[i] == None
  {
    InitInv(name);
    RunInv(Init(name), acts, s, name);
    RunInv(s, more, t, name);
    HaltedRun(s, more, t);
    hide Run, Init, Placed, Honest;
  }

  predicate Busy(d: Driver) { d.Sending? || d.Receiving? || d.Reaping? }

  /** A step that does not depend on the module, for a driver in a call. */
  function NextStep(s: State): Action {
    if s.d.Sending? then TakeAnswers
    else if s.d.Reaping? && s.d.stage.ReleasingAnswers? then ReleaseAnswers
    else if s.d.Reaping? && s.d.stage.ReleasingEvents? then ReleaseEvents
    else match s.w
      case Spawned => Unpack
      case Offering(_) => if s.d.Receiving? then TakePrompt else PromptFails
      case Listening => ListenFails
      case Unwound(_) => Restore
      case Restored(_) => if s.d.Receiving? then TakeFinished else FinishedFails
      case _ => Join
  }

  /** A driver in a call waits for nothing but the module: unless the stack is running, a step is possible. */
  lemma OnlyTheModule(s: State, name: nat)
    requires Inv(s, name) && Busy(s.d) && !s.w.InModule?
    ensures var a := NextStep(s); Enabled(s, a) && !IsCall(a)
  {
  }

  /** How many steps the two threads can take before the module's next one or the driver's next call. */
  function Steps(s: State): nat {
    (match s.d
     case Sending(_, _) => 5
     case Receiving(_) => 4
     case Reaping(stage, _) => (match stage case ReleasingAnswers => 3 case ReleasingEvents => 2 case Joining => 1)
     case _ => 0)
    + (match s.w
       case NoThread => 0
       case Exited(_) => 0
       case Restored(_) => 1
       case Unwound(_) => 2
       case InModule => 3
       case Listening => 4
       case Spawned => 4
       case Offering(_) => 5)
  }

  function Asks(acts: seq<Action>): nat {
    if acts == [] then 0 else (if acts[0].Ask? then 1 else 0) + Asks(acts[1..])
  }

  lemma StepsLeft(s: State, a: Action)
    requires Enabled(s, a) && !IsCall(a)
    ensures Steps(Do(s, a)) + 1 <= Steps(s) + if a.Ask? then 3 else 0
  {
    hide Joined;
  }

  lemma {:induction false} RunsEnd(s: State, acts: seq<Action>, t: State)
    requires Run(s, acts, t) && forall i :: 0 <= i < |acts| ==> !IsCall(acts[i])
    ensures |acts| + Steps(t) <= Steps(s) + 3 * Asks(acts)
    decreases |acts|
  {
    hide Enabled, Do, Steps;
    if acts != [] {
      StepsLeft(s, acts[0]);
      RunsEnd(Do(s, acts[0]), acts[1..], t);
    }
  }

  /** The module has returned. */
  predicate Over(w: Worker) { w.Unwound? || w.Restored? || w.Exited? }

  lemma OverKept(s: State, a: Action)
    requires Enabled(s, a) && Over(s.w) && !s.d.Fresh?
    ensures Over(Do(s, a).w) && !Do(s, a).d.Fresh? && !a.Ask?
  {
    hide Joined;
  }

  lemma {:induction false} OverAsksNothing(s: State, acts: seq<Action>, t: State)
    requires Run(s, acts, t) && Over(s.w) && !s.d.Fresh?
    ensures Asks(acts) == 0
    decreases |acts|
  {
    hide Enabled, Do;
    if acts != [] {
      OverKept(s, acts[0]);
      OverAsksNothing(Do(s, acts[0]), acts[1..], t);
    }
  }

  lemma FewSteps(s: State, name: nat)
    requires Inv(s, name)
    ensures Steps(s) <= 9 && (Over(s.w) ==> Steps(s) <= 6 && !s.d.Fresh?)
  {
  }

  /** No call deadlocks. From any reachable state, with no new call, the threads take at most nine steps and
      three for each conversation the module holds, and at most six once it has returned; and where they
      can take no more, the driver's call has returned. */
  lemma CallsReturn(name: nat, before: seq<Action>, s: State, acts: seq<Action>, t: State)
    requires Run(Init(name), before, s) && Run(s, acts, t)
    requires forall i :: 0 <= i < |acts| ==> !IsCall(acts[i])
    ensures |acts| <= 9 + 3 * Asks(acts) && (Over(s.w) ==> |acts| <= 6)
    ensures (forall a :: Enabled(t, a) ==> IsCall(a)) ==> !Busy(t.d)
  {
    hide Run, Init, Inv, Do, Steps;
    InitInv(name);
    RunInv(Init(name), before, s, name);
    RunInv(s, acts, t, name);
    RunsEnd(s, acts, t);
    FewSteps(s, name);
    if Over(s.w) { OverAsksNothing(s, acts, t); }
    if Busy(t.d) {
      if t.w.InModule? { assert Enabled(t, Return(Passed)); } else { OnlyTheModule(t, name); }
    }
  }

  /** `finish` gives the transaction back, the same one, however the exchange ended; only a panic that was
      still to be raised takes its place. `Drop` ends it. */
  lemma FinishReturns(name: nat, acts: seq<Action>, s: State)
    requires Run(Init(name), acts, s) && Enabled(s, Join)
    ensures var t, panics := Do(s, Join), s.handle && s.w.Exited? && s.w.v.Panicked?;
      && (s.d.purpose.ForFinish? && !panics ==> t.reply == Returned && t.at.caller == Some(Txn(name, Original)))
      && (s.d.purpose.ForFinish? && panics ==> t.reply == Unwinding && t.at.ended == Some(Txn(name, Original)))
      && (s.d.purpose.ForDrop? ==> t.at.ended == Some(Txn(name, Original)))
      && (s.d.purpose.ForStep? ==>
            t.at.done == Some(Txn(name, Original)) && t.d.Idle? && s.w.Exited? && t.reply == Report(s.w.v))
  {
    hide Run, Init;
    InitInv(name);
    RunInv(Init(name), acts, s, name);
  }

  /** `finish` of an exchange that has ended, on its way. */
  predicate Finishing(s: State) {
    && s.phase.Ended? && !s.handle
    && (if s.d.Gone? then s.reply.Returned? && s.at.caller.Some? else s.d.Reaping? && s.d.purpose.ForFinish?)
  }

  lemma FinishingKept(s: State, name: nat, a: Action)
    requires Inv(s, name) && Finishing(s) && Enabled(s, a)
    ensures Finishing(Do(s, a))
  {
    hide Logged, Honest;
  }

  lemma {:induction false} FinishingRun(s: State, name: nat, acts: seq<Action>, t: State)
    requires Inv(s, name) && Finishing(s) && Run(s, acts, t)
    ensures Finishing(t)
    decreases |acts|
  {
    hide Inv, Finishing, Enabled, Do;
    if acts != [] {
      InvKept(s, name, acts[0]);
      FinishingKept(s, name, acts[0]);
      FinishingRun(Do(s, acts[0]), name, acts[1..], t);
    }
  }

  /** `finish` of an exchange whose verdict has been reported gives the transaction back, and raises nothing. */
  lemma {:induction false} FinishAfterEnd(name: nat, before: seq<Action>, s: State, a: Action, acts: seq<Action>, t: State)
    requires Run(Init(name), before, s) && s.d.Idle? && s.phase.Ended? && a.Finish?
    requires Run(Do(s, a), acts, t) && t.d.Gone?
    ensures t.reply.Returned? && t.at.caller == Some(Txn(name, Original))
  {
    hide Run, Init, Logged, Honest;
    InitInv(name);
    RunInv(Init(name), before, s, name);
    InvKept(s, name, a);
    FinishingRun(Do(s, a), name, acts, t);
    RunInv(Do(s, a), acts, t, name);
  }
}
