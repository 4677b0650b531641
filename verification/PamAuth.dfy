/** The login sequence of section 3.1 of the Linux-PAM Application Developers' Guide, kept by a stage machine
    over a stepped exchange. */
module PamAuth {
  import P = PamStep
  import opened Wrappers

  datatype Stage = Start | Authenticating | Authenticated | AccountChecked | SessionOpen | Ended | Failed

  /** Where the transaction is: held here, or on the exchange's worker. */
  datatype Held = Transaction | Exchange(phase: P.Phase) | Nothing

  datatype Error = OutOfSequence | Timeout | Os(code: int) | Pam(code: int) | Conv(code: int)

  datatype Result = Prompt | Done | Ok | Err(e: Error) | Panic

  /** How the conversation that a call on the stack held came out. */
  datatype Talk = Fine | Fails(code: int) | Unwinds

  /** What a call on the stack comes to: the stack's own code, `None` for success, and the conversation. */
  datatype Stack = Stack(rc: Option<int>, talk: Talk)

  /** What the caller of the operation is told. A conversation that failed is reported ahead of the stack's code,
      a success included, and a panic in one is resumed. */
  function Told(o: Stack): Result {
    match o.talk
    case Unwinds => Panic
    case Fails(code) => Err(Conv(code))
    case Fine => if o.rc.Some? then Err(Pam(o.rc.value)) else Ok
  }

  datatype Said = Yes | No | Unwound

  function Saying(o: Stack): (s: Said)
    ensures s.Yes? ==> o.rc.None?
  {
    match Told(o)
    case Ok => Yes
    case Panic => Unwound
    case _ => No
  }

  /** A call that reached the stack: whether the stack did what was asked, and what the caller was told. */
  datatype Event =
    | Authenticate(told: bool) | Account(ok: bool, said: Said)
    | Establish(ok: bool, said: Said) | Delete(ok: bool, said: Said)
    | OpenSession(ok: bool, said: Said) | CloseSession(ok: bool, said: Said)

  /** What an exchange comes to when it is waited for. */
  datatype Move = Prompts | Passes | Refuses(code: int) | TimesOut | Panics

  /** `wait`, or `respond` when `responding`. */
  function Advanced(phase: P.Phase, responding: bool, move: Move): (P.Phase, Result) {
    if phase != (if responding then P.Prompting else P.Started) then (phase, Err(OutOfSequence))
    else match move
      case Prompts => (P.Prompting, Prompt)
      case Passes => (P.Ended, Done)
      case Refuses(code) => (P.Ended, Err(Pam(code)))
      case TimesOut => (P.Stopped, Err(Timeout))
      case Panics => (P.Ended, Panic)
  }

  function AsResult(reply: P.Reply): Result {
    match reply
    case Prompted(_) => Prompt
    case Succeeded => Done
    case Refused(code) => Err(Pam(code))
    case TimedOut => Err(Timeout)
    case Unwinding => Panic
    case _ => Err(OutOfSequence)
  }

  /** Whatever a stepped exchange does in a call that is in sequence is one of the moves. */
  lemma MovesCoverExchange(name: nat, before: seq<P.Action>, s: P.State, a: P.Action, acts: seq<P.Action>, t: P.State)
    returns (move: Move)
    requires P.Run(P.Init(name), before, s) && s.d.Idle?
    requires (a.Wait? && s.phase.Started?) || (a.Respond? && s.phase.Prompting?)
    requires P.Run(P.Do(s, a), acts, t) && t.d.Idle?
    requires forall i :: 0 <= i < |acts| ==> !P.IsCall(acts[i])
    ensures Advanced(s.phase, a.Respond?, move) == (t.phase, AsResult(t.reply))
  {
    hide P.Run, P.Do, P.Enabled;
    P.StepsOfAnExchange(name, before, s, a, acts, t);
    move := match t.reply
      case Prompted(_) => Prompts
      case Succeeded => Passes
      case Refused(code) => Refuses(code)
      case Unwinding => Panics
      case _ => TimesOut;
  }

  /** What `settle` relies on: an exchange that has ended gives its transaction back when it is finished. */
  lemma SettleGetsItBack(name: nat, before: seq<P.Action>, s: P.State, acts: seq<P.Action>, t: P.State)
    requires P.Run(P.Init(name), before, s) && s.d.Idle? && s.phase.Ended?
    requires P.Run(P.Do(s, P.Finish), acts, t) && t.d.Gone?
    ensures t.reply.Returned? && t.at.caller == Some(P.Txn(name, P.Original))
  {
    hide P.Run, P.Do;
    P.FinishAfterEnd(name, before, s, P.Finish, acts, t);
  }

  datatype Auth = Auth(held: Held, stage: Stage, log: seq<Event>)

  /** What the caller asks for, with what the stack answers. */
  datatype Call =
    | Begin(failure: Option<int>, move: Move) | Respond(move: Move) | Check(verdict: Stack)
    | Login(grant: Stack, open: Stack, revoke: Stack) | Logout(close: Stack, revoke: Stack)

  function Reported(move: Move): seq<Event> {
    if move.Passes? then [Authenticate(true)] else if move.Refuses? || move.Panics? then [Authenticate(false)] else []
  }

  function Granting(o: Stack): Event { Establish(o.rc.None?, Saying(o)) }

  function Opening(o: Stack): Event { OpenSession(o.rc.None?, Saying(o)) }

  function Closing(o: Stack): Event { CloseSession(o.rc.None?, Saying(o)) }

  function Revoking(o: Stack): Event { Delete(o.rc.None?, Saying(o)) }

  /** The state and the result after a step of the exchange. */
  function Stepped(a: Auth, responding: bool, move: Move): (Auth, Result) {
    if !a.held.Exchange? then (a, Err(OutOfSequence)) else
    var (phase, r) := Advanced(a.held.phase, responding, move);
    var log := a.log + if r == Err(OutOfSequence) then [] else Reported(move);
    match r
    case Prompt => (Auth(Exchange(phase), Authenticating, log), r)
    case Done => (Auth(Transaction, Authenticated, log), r)
    case Panic => (Auth(Exchange(phase), a.stage, log), r)
    case _ => if r == Err(Timeout) then (Auth(Exchange(phase), Failed, log), r) else (Auth(Transaction, Failed, log), r)
  }

  function Apply(a: Auth, c: Call): (Auth, Result) {
    match c
    case Begin(failure, move) =>
      if !(a.stage.Start? || a.stage.Failed?) || !a.held.Transaction? then (a, Err(OutOfSequence))
      else if failure.Some? then (a.(stage := Failed), Err(Os(failure.value)))
      else Stepped(a.(held := Exchange(P.Started), stage := Authenticating), false, move)
    case Respond(move) => if !a.stage.Authenticating? then (a, Err(OutOfSequence)) else Stepped(a, true, move)
    case Check(verdict) =>
      if !a.stage.Authenticated? || !a.held.Transaction? then (a, Err(OutOfSequence))
      else (Auth(a.held, if Saying(verdict).Yes? then AccountChecked else a.stage,
                 a.log + [Account(verdict.rc.None?, Saying(verdict))]), Told(verdict))
    case Login(grant, open, revoke) =>
      if !a.stage.AccountChecked? || !a.held.Transaction? then (a, Err(OutOfSequence)) else
      var granted := a.log + [Granting(grant)];
      if !Saying(grant).Yes? then (a.(log := granted), Told(grant)) else
      var tried := granted + [Opening(open)];
      if Saying(open).Yes? then (Auth(a.held, SessionOpen, tried), Ok)
      else if Saying(open).Unwound? then (a.(log := tried), Panic)
      else (a.(log := tried + [Revoking(revoke)]), if Saying(revoke).Unwound? then Panic else Told(open))
    case Logout(close, revoke) =>
      if !a.stage.SessionOpen? || !a.held.Transaction? then (a, Err(OutOfSequence)) else
      var closed := a.log + [Closing(close)];
      if Saying(close).Unwound? then (a.(log := closed), Panic) else
      var revoked := closed + [Revoking(revoke)];
      if Saying(revoke).Unwound? then (a.(log := revoked), Panic)
      else (Auth(a.held, Ended, revoked), if Saying(close).Yes? then Told(revoke) else Told(close))
  }

  class Authenticator {
    var held: Held
    var stage: Stage
    ghost var log: seq<Event>

    constructor ()
      ensures Now() == Auth(Transaction, Start, [])
    {
      held, stage, log := Transaction, Start, [];
    }

    ghost function Now(): Auth
      reads this
    {
      Auth(held, stage, log)
    }

    method Begin(failure: Option<int>, move: Move) returns (r: Result)
      modifies this
      ensures (Now(), r) == Apply(old(Now()), Call.Begin(failure, move))
    {
      if !(stage.Start? || stage.Failed?) { return Err(OutOfSequence); }
      var was := held;
      held := Nothing;
      if !was.Transaction? {
        held := was;
        return Err(OutOfSequence);
      }
      if failure.Some? {
        held, stage := Transaction, Failed;
        return Err(Os(failure.value));
      }
      held, stage := Exchange(P.Started), Authenticating;
      r := Step(false, move);
    }

    method Respond(move: Move) returns (r: Result)
      modifies this
      ensures (Now(), r) == Apply(old(Now()), Call.Respond(move))
    {
      if !stage.Authenticating? { return Err(OutOfSequence); }
      r := Step(true, move);
    }

    method Step(responding: bool, move: Move) returns (r: Result)
      modifies this
      ensures (Now(), r) == Stepped(old(Now()), responding, move)
    {
      if !held.Exchange? { return Err(OutOfSequence); }
      var (phase, result) := Advanced(held.phase, responding, move);
      held, r := Exchange(phase), result;
      log := log + if r == Err(OutOfSequence) then [] else Reported(move);
      if r.Panic? { return; }
      if r.Prompt? {
        stage := Authenticating;
      } else if r.Done? {
        Settle(Authenticated);
      } else if r == Err(Timeout) {
        stage := Failed;
      } else {
        Settle(Failed);
      }
    }

    /** Take the transaction back from the exchange, which `finish` always gives for one that has ended. */
    method Settle(at: Stage)
      modifies this`held, this`stage
      ensures stage == at && held == if old(held).Exchange? then Transaction else Nothing
    {
      var was := held;
      held := Nothing;
      if was.Exchange? { held := Transaction; }
      stage := at;
    }

    method AcctMgmt(verdict: Stack) returns (r: Result)
      modifies this
      ensures (Now(), r) == Apply(old(Now()), Check(verdict))
    {
      if !stage.Authenticated? || !held.Transaction? { return Err(OutOfSequence); }
      log := log + [Account(verdict.rc.None?, Saying(verdict))];
      r := Told(verdict);
      if !r.Ok? { return; }
      stage := AccountChecked;
    }

    method Login(grant: Stack, open: Stack, revoke: Stack) returns (r: Result)
      modifies this
      ensures (Now(), r) == Apply(old(Now()), Call.Login(grant, open, revoke))
    {
      if !stage.AccountChecked? || !held.Transaction? { return Err(OutOfSequence); }
      log := log + [Granting(grant)];
      r := Told(grant);
      if !r.Ok? { return; }
      log := log + [Opening(open)];
      r := Told(open);
      if r.Panic? { return; }
      if r.Err? {
        log := log + [Revoking(revoke)];
        if Told(revoke).Panic? { r := Panic; }
        return;
      }
      stage := SessionOpen;
    }

    method Logout(close: Stack, revoke: Stack) returns (r: Result)
      modifies this
      ensures (Now(), r) == Apply(old(Now()), Call.Logout(close, revoke))
    {
      if !stage.SessionOpen? || !held.Transaction? { return Err(OutOfSequence); }
      log := log + [Closing(close)];
      var closed := Told(close);
      if closed.Panic? { return Panic; }
      log := log + [Revoking(revoke)];
      var revoked := Told(revoke);
      if revoked.Panic? { return Panic; }
      stage := Ended;
      r := if closed.Ok? then revoked else closed;
    }
  }

  /** The order the guide sets out, as an automaton over the calls that reach the stack. */
  datatype Order = Unknown | Accepted | Usable | Granted | Unopened | InSession | Closed | Over

  function Next(g: Order, e: Event): Option<Order> {
    match e
    case Authenticate(told) => if g.Unknown? then Some(if told then Accepted else Unknown) else None
    case Account(ok, said) => if g.Accepted? && (said.Yes? ==> ok) then Some(if said.Yes? then Usable else Accepted) else None
    case Establish(ok, said) => if g.Usable? && (said.Yes? ==> ok) then Some(if said.Yes? then Granted else Usable) else None
    case OpenSession(_, said) =>
      if !g.Granted? then None
      else Some(match said case Yes => InSession case No => Unopened case Unwound => Usable)
    // A panic leaves the session open as far as the stage goes.
    case CloseSession(_, said) => if g.InSession? then Some(if said.Unwound? then InSession else Closed) else None
    case Delete(_, said) =>
      if g.Unopened? then Some(Usable)
      else if g.Closed? then Some(if said.Unwound? then InSession else Over)
      else None
  }

  function Scan(log: seq<Event>): Option<Order>
    decreases |log|
  {
    if log == [] then Some(Unknown) else
    var before := Scan(log[..|log| - 1]);
    if before.None? then None else Next(before.value, log[|log| - 1])
  }

  lemma ScanOne(log: seq<Event>, e: Event)
    ensures Scan(log + [e]) == if Scan(log).None? then None else Next(Scan(log).value, e)
  {
    assert (log + [e])[..|log|] == log;
  }

  function StageOrder(stage: Stage): Order {
    match stage
    case Authenticated => Accepted
    case AccountChecked => Usable
    case SessionOpen => InSession
    case Ended => Over
    case _ => Unknown
  }

  /** What holds between calls. */
  predicate Inv(a: Auth) {
    && Scan(a.log) == Some(StageOrder(a.stage))
    && (match a.held
        case Transaction => !a.stage.Authenticating?
        case Exchange(phase) =>
          || (phase.Prompting? && a.stage.Authenticating?)
          || (phase.Stopped? && a.stage.Failed?)
          || (phase.Ended? && a.stage.Authenticating?)
        case Nothing => false)
  }

  lemma SteppedInv(a: Auth, responding: bool, move: Move)
    requires a.held.Exchange? && a.stage.Authenticating? && Scan(a.log) == Some(Unknown)
    requires a.held.phase.Ended? ==> responding
    requires responding ==> a.held.phase.Prompting? || a.held.phase.Ended?
    requires !responding ==> a.held.phase.Started?
    ensures Inv(Stepped(a, responding, move).0)
    ensures Stepped(a, responding, move).0.held == Exchange(P.Ended) ==> Stepped(a, responding, move).1.Panic?
  {
    hide Scan;
    assert a.log + [] == a.log;
    ScanOne(a.log, Authenticate(true));
    ScanOne(a.log, Authenticate(false));
  }

  lemma ApplyInv(a: Auth, c: Call)
    requires Inv(a)
    ensures var (b, r) := Apply(a, c); Inv(b) && (b != a && b.held == Exchange(P.Ended) ==> r.Panic?)
  {
    hide Scan, Stepped;
    match c
    case Begin(failure, move) =>
      if (a.stage.Start? || a.stage.Failed?) && a.held.Transaction? {
        SteppedInv(a.(held := Exchange(P.Started), stage := Authenticating), false, move);
      }
    case Respond(move) => if a.stage.Authenticating? { SteppedInv(a, true, move); }
    case Check(verdict) => ScanOne(a.log, Account(verdict.rc.None?, Saying(verdict)));
    case Login(grant, open, revoke) =>
      ScanOne(a.log, Granting(grant));
      ScanOne(a.log + [Granting(grant)], Opening(open));
      ScanOne(a.log + [Granting(grant)] + [Opening(open)], Revoking(revoke));
    case Logout(close, revoke) =>
      ScanOne(a.log, Closing(close));
      ScanOne(a.log + [Closing(close)], Revoking(revoke));
  }

  /** The state after a run of calls. */
  function After(calls: seq<Call>): Auth
    decreases |calls|
  {
    if calls == [] then Auth(Transaction, Start, [])
    else Apply(After(calls[..|calls| - 1]), calls[|calls| - 1]).0
  }

  lemma {:induction false} AfterInv(calls: seq<Call>)
    ensures Inv(After(calls))
    decreases |calls|
  {
    hide Apply;
    if calls != [] {
      AfterInv(calls[..|calls| - 1]);
      ApplyInv(After(calls[..|calls| - 1]), calls[|calls| - 1]);
    }
  }

  predicate Accepts(e: Event) { e == Authenticate(true) }

  predicate FoundUsable(e: Event) { e.Account? && e.said.Yes? }

  /** The last authentication succeeded, and the account was found usable after it. */
  ghost predicate Vetted(log: seq<Event>) {
    exists k, j :: 0 <= k < j < |log| && Accepts(log[k]) && FoundUsable(log[j])
                   && forall n :: k < n < |log| ==> !log[n].Authenticate?
  }

  ghost predicate Proven(log: seq<Event>) {
    exists k :: 0 <= k < |log| && Accepts(log[k]) && forall n :: k < n < |log| ==> !log[n].Authenticate?
  }

  /** What the automaton's position says about the calls that led there. */
  ghost predicate Means(g: Order, log: seq<Event>) {
    && (!g.Unknown? ==> Proven(log))
    && (!g.Unknown? && !g.Accepted? ==> Vetted(log))
    && (g.Granted? ==> |log| > 0 && log[|log| - 1] == Establish(true, Yes))
  }

  lemma MeansKept(g: Order, log: seq<Event>, e: Event)
    requires Means(g, log) && Next(g, e).Some?
    ensures Means(Next(g, e).value, log + [e])
  {
    hide Proven, Vetted;
    var longer := log + [e];
    ProvenKept(log, e);
    VettedKept(log, e);
    assert longer[|log|] == e;
  }

  lemma ProvenKept(log: seq<Event>, e: Event)
    ensures Accepts(e) || (Proven(log) && !e.Authenticate?) ==> Proven(log + [e])
  {
    var longer := log + [e];
    if Accepts(e) {
      assert longer[|log|] == e;
    } else if Proven(log) && !e.Authenticate? {
      var k :| 0 <= k < |log| && Accepts(log[k]) && forall n :: k < n < |log| ==> !log[n].Authenticate?;
      assert Accepts(longer[k]);
    }
  }

  lemma VettedKept(log: seq<Event>, e: Event)
    ensures (Proven(log) && FoundUsable(e)) || (Vetted(log) && !e.Authenticate?) ==> Vetted(log + [e])
  {
    var longer := log + [e];
    if Proven(log) && FoundUsable(e) {
      var k :| 0 <= k < |log| && Accepts(log[k]) && forall n :: k < n < |log| ==> !log[n].Authenticate?;
      assert Accepts(longer[k]) && longer[|log|] == e;
    } else if Vetted(log) && !e.Authenticate? {
      var k, j :| 0 <= k < j < |log| && Accepts(log[k]) && FoundUsable(log[j])
                  && forall n :: k < n < |log| ==> !log[n].Authenticate?;
      assert Accepts(longer[k]) && FoundUsable(longer[j]);
    }
  }

  lemma {:induction false} ScanMeans(log: seq<Event>)
    requires Scan(log).Some?
    ensures Means(Scan(log).value, log)
    decreases |log|
  {
    hide Means, Next;
    if log == [] {
      EmptyMeans();
    } else {
      var before := log[..|log| - 1];
      ScanMeans(before);
      MeansKept(Scan(before).value, before, log[|log| - 1]);
      assert log == before + [log[|log| - 1]];
    }
  }

  lemma EmptyMeans()
    ensures Means(Unknown, [])
  {
  }

  lemma {:induction false} ScanPrefix(log: seq<Event>, i: nat)
    requires Scan(log).Some? && i <= |log|
    ensures Scan(log[..i]).Some?
    decreases |log|
  {
    if i < |log| {
      ScanPrefix(log[..|log| - 1], i);
      assert log[..|log| - 1][..i] == log[..i];
    } else {
      assert log[..i] == log;
    }
  }

  /** Every run of calls. A session is asked for only straight after the credentials were granted, that only
      once the account was found usable, and that only once the last authentication had succeeded. */
  lemma {:induction false} SessionNeedsAll(calls: seq<Call>, i: nat)
    requires var log := After(calls).log; i < |log| && log[i].OpenSession?
    ensures var log := After(calls).log; i > 0 && log[i - 1] == Establish(true, Yes) && Vetted(log[..i])
  {
    hide After, Means, Vetted;
    AfterInv(calls);
    var log := After(calls).log;
    ScanPrefix(log, i + 1);
    ScanPrefix(log, i);
    assert log[..i + 1][..i] == log[..i];
    ScanMeans(log[..i]);
    OpeningMeans(Scan(log[..i]).value, log[..i]);
  }

  lemma OpeningMeans(g: Order, log: seq<Event>)
    requires g.Granted? && Means(g, log)
    ensures |log| > 0 && log[|log| - 1] == Establish(true, Yes) && Vetted(log)
  {
  }

  /** The stack granted credentials, whatever it said, or revoked them. */
  predicate Grants(e: Event) { e.Establish? && e.ok }

  predicate Revokes(e: Event) { e.Delete? && e.ok }

  /** The stack has granted credentials and not revoked them since. */
  ghost predicate Kept(log: seq<Event>) {
    exists i :: 0 <= i < |log| && Grants(log[i]) && forall n :: i < n < |log| ==> !Revokes(log[n])
  }

  lemma KeptOne(log: seq<Event>, e: Event)
    ensures Kept(log + [e]) <==> Grants(e) || (Kept(log) && !Revokes(e))
  {
    var longer := log + [e];
    assert longer[|log|] == e;
    if Kept(log) && !Revokes(e) {
      var i :| 0 <= i < |log| && Grants(log[i]) && forall n :: i < n < |log| ==> !Revokes(log[n]);
      assert Grants(longer[i]);
    }
    if Kept(longer) && !Grants(e) {
      var i :| 0 <= i < |longer| && Grants(longer[i]) && forall n :: i < n < |longer| ==> !Revokes(longer[n]);
      assert Grants(log[i]) && forall n :: i < n < |log| ==> log[n] == longer[n];
    }
  }

  /** The last call that granted credentials. */
  function LastGrant(log: seq<Event>): (i: Option<nat>)
    ensures i.Some? ==> i.value < |log| && Grants(log[i.value])
    ensures i.Some? ==> forall n :: i.value < n < |log| ==> !Grants(log[n])
    ensures i.None? ==> forall n :: 0 <= n < |log| ==> !Grants(log[n])
    decreases |log|
  {
    if log == [] then None
    else if Grants(log[|log| - 1]) then Some(|log| - 1)
    else LastGrant(log[..|log| - 1])
  }

  /** A revocation was asked for after the call at `i`. */
  ghost predicate Tried(log: seq<Event>, i: nat) { exists n :: i < n < |log| && log[n].Delete? }

  /** The login was cut short before it could ask for one: its grant was reported as something else, or the
      opening of the session unwound. */
  predicate Cut(log: seq<Event>, i: nat)
    requires i < |log| && log[i].Establish?
  {
    !log[i].said.Yes? || (i + 1 < |log| && log[i + 1].OpenSession? && log[i + 1].said.Unwound?)
  }

  /** The revocations asked for since the call at `i` all unwound. */
  ghost predicate Unwinding(log: seq<Event>, i: nat) {
    forall n :: i < n < |log| && log[n].Delete? ==> log[n].said.Unwound?
  }

  /** What the automaton's position says about the credentials. */
  ghost predicate Credits(g: Order, log: seq<Event>) {
    var i := LastGrant(log);
    && (g.Unknown? || g.Accepted? ==> i.None?)
    && (g.Usable? && i.Some? ==> Tried(log, i.value) || Cut(log, i.value))
    && (g.Granted? ==> i == Some(|log| - 1) && log[|log| - 1].said.Yes?)
    && (g.Unopened? || g.InSession? || g.Closed? ==> i.Some?)
    && (g.InSession? || g.Closed? ==> Unwinding(log, i.value))
    && (g.Over? ==> i.Some? && Tried(log, i.value))
  }

  lemma LastOne(log: seq<Event>, e: Event)
    ensures LastGrant(log + [e]) == if Grants(e) then Some(|log|) else LastGrant(log)
  {
    hide Grants;
    assert (log + [e])[..|log|] == log;
  }

  lemma TriedOne(log: seq<Event>, e: Event, i: nat)
    requires i < |log| && log[i].Establish?
    ensures Tried(log + [e], i) <==> Tried(log, i) || e.Delete?
    ensures Unwinding(log + [e], i) <==> Unwinding(log, i) && (e.Delete? ==> e.said.Unwound?)
    ensures Cut(log, i) ==> Cut(log + [e], i)
    ensures i == |log| - 1 ==> Unwinding(log, i)
    ensures i == |log| - 1 && e.OpenSession? && e.said.Unwound? ==> Cut(log + [e], i)
  {
    var longer := log + [e];
    assert longer[|log|] == e && longer[i] == log[i];
    if Tried(log, i) {
      var n :| i < n < |log| && log[n].Delete?;
      assert longer[n].Delete?;
    }
    if Unwinding(longer, i) {
      assert forall n :: i < n < |log| ==> log[n] == longer[n];
    }
  }

  lemma CreditsKept(g: Order, log: seq<Event>, e: Event)
    requires Credits(g, log) && Next(g, e).Some?
    ensures Credits(Next(g, e).value, log + [e])
  {
    hide Tried, Cut, Unwinding, LastGrant;
    LastOne(log, e);
    var i := LastGrant(log);
    assert (log + [e])[|log|] == e;
    if i.Some? { TriedOne(log, e, i.value); }
    if e.Establish? { FreshGrant(log, e); }
  }

  lemma FreshGrant(log: seq<Event>, e: Event)
    requires e.Establish?
    ensures Cut(log + [e], |log|) <==> !e.said.Yes?
    ensures Unwinding(log + [e], |log|)
  {
  }

  lemma {:induction false} ScanCredits(log: seq<Event>)
    requires Scan(log).Some?
    ensures Credits(Scan(log).value, log)
    decreases |log|
  {
    hide Credits, Next;
    if log == [] {
      NoCredits();
    } else {
      var before := log[..|log| - 1];
      ScanCredits(before);
      CreditsKept(Scan(before).value, before, log[|log| - 1]);
      assert log == before + [log[|log| - 1]];
    }
  }

  lemma NoCredits()
    ensures Credits(Unknown, [])
  {
  }

  lemma KeptIs(log: seq<Event>)
    ensures Kept(log) <==>
      var i := LastGrant(log); i.Some? && forall n :: i.value < n < |log| ==> !Revokes(log[n])
  {
    var i := LastGrant(log);
    if Kept(log) {
      var k :| 0 <= k < |log| && Grants(log[k]) && forall n :: k < n < |log| ==> !Revokes(log[n]);
    }
  }

  /** The stack's answers to the operations that a call may come to, in order. */
  function Answers(c: Call): seq<Stack> {
    match c
    case Check(verdict) => [verdict]
    case Login(grant, open, revoke) => [grant, open, revoke]
    case Logout(close, revoke) => [close, revoke]
    case _ => []
  }

  /** An answer that is not a success: the stack refused, or the conversation did not go through. */
  predicate Wrong(o: Stack) { o.rc.Some? || !o.talk.Fine? }

  /** The error such an answer is reported as. A conversation's own reason comes ahead of the stack's code. */
  predicate Reason(o: Stack, e: Error) {
    if o.talk.Fails? then e == Conv(o.talk.code) else o.talk.Fine? && o.rc.Some? && e == Pam(o.rc.value)
  }

  /** The event that answer `i` of a call leaves in the log. */
  function Logged(c: Call, i: nat): Event
    requires i < |Answers(c)|
  {
    var o := Answers(c)[i];
    var ok, said := o.rc.None?, if o.talk.Unwinds? then Unwound else if Wrong(o) then No else Yes;
    if c.Check? then Account(ok, said)
    else if c.Login? then (if i == 0 then Establish(ok, said) else if i == 1 then OpenSession(ok, said) else Delete(ok, said))
    else if i == 0 then CloseSession(ok, said) else Delete(ok, said)
  }

  /** What the calls on the stack come to, by their answers alone: the first `n` of them were made, none but the
      last unwound, and the caller is told of the first that went wrong, or of the one that unwound. */
  predicate Tells(c: Call, n: nat, r: Result) {
    var os := Answers(c);
    && 0 < n <= |os|
    && (forall i :: 0 <= i < n - 1 ==> !os[i].talk.Unwinds?)
    && (r.Panic? <==> os[n - 1].talk.Unwinds?)
    && (r.Ok? <==> forall i :: 0 <= i < n ==> !Wrong(os[i]))
    && (r.Err? ==> exists i :: 0 <= i < n && Reason(os[i], r.e) && forall j :: 0 <= j < i ==> !Wrong(os[j]))
    && (r.Panic? || r.Ok? || r.Err?)
  }

  lemma OneAnswer(o: Stack)
    ensures Saying(o) == if o.talk.Unwinds? then Unwound else if Wrong(o) then No else Yes
    ensures Told(o).Ok? <==> !Wrong(o)
    ensures Told(o).Panic? <==> o.talk.Unwinds?
    ensures Told(o).Err? ==> Reason(o, Told(o).e) && Wrong(o)
    ensures Told(o).Ok? || Told(o).Err? || Told(o).Panic?
  {
  }

  /** Whether a call is in its place, by the guide's order and where the transaction is. */
  ghost predicate InPlace(a: Auth, c: Call) {
    match c
    case Begin(_, _) => a.held.Transaction? && Scan(a.log) == Some(Unknown)
    case Respond(_) => a.held == Exchange(P.Prompting)
    case Check(_) => Scan(a.log) == Some(Accepted)
    case Login(_, _, _) => Scan(a.log) == Some(Usable)
    case Logout(_, _) => Scan(a.log) == Some(InSession)
  }

  /** How many of its operations a call makes: a login stops at what it was not granted and revokes only what it
      could not use, and a logout revokes unless the close unwound. */
  function Made(c: Call): nat {
    match c
    case Check(_) => 1
    case Login(grant, open, _) => if Wrong(grant) then 1 else if Wrong(open) && !open.talk.Unwinds? then 3 else 2
    case Logout(close, _) => if close.talk.Unwinds? then 1 else 2
    case _ => 0
  }

  /** The events of the first `n` operations of a call. */
  function LoggedBy(c: Call, n: nat): seq<Event>
    requires n <= |Answers(c)|
  {
    if n == 0 then [] else LoggedBy(c, n - 1) + [Logged(c, n - 1)]
  }

  /** What a call on the stack is and says, in its place and out of it. */
  ghost predicate Answered(a: Auth, c: Call, b: Auth, r: Result) {
    if InPlace(a, c) then Tells(c, Made(c), r) && b.log == a.log + LoggedBy(c, Made(c))
    else r == Err(OutOfSequence) && b == a
  }

  lemma LogsOne(log: seq<Event>, c: Call)
    requires |Answers(c)| >= 1
    ensures log + LoggedBy(c, 1) == log + [Logged(c, 0)]
  {
    assert LoggedBy(c, 0) == [];
    assert [] + [Logged(c, 0)] == [Logged(c, 0)];
  }

  lemma LogsMore(log: seq<Event>, c: Call, n: nat)
    requires n < |Answers(c)|
    ensures log + LoggedBy(c, n + 1) == log + LoggedBy(c, n) + [Logged(c, n)]
  {
  }

  lemma TellsFirst(c: Call, r: Result)
    requires |Answers(c)| > 0 && r == Told(Answers(c)[0])
    ensures Tells(c, 1, r)
  {
    hide Told;
    OneAnswer(Answers(c)[0]);
  }

  lemma CheckTells(a: Auth, verdict: Stack)
    requires Inv(a)
    ensures var (b, r) := Apply(a, Check(verdict)); Answered(a, Check(verdict), b, r)
  {
    hide Scan, Told, Saying, Tells, LoggedBy;
    var c := Check(verdict);
    OneAnswer(verdict);
    LogsOne(a.log, c);
    TellsFirst(c, Told(verdict));
  }

  lemma LoginTells(a: Auth, grant: Stack, open: Stack, revoke: Stack)
    requires Inv(a)
    ensures var c := Login(grant, open, revoke); var (b, r) := Apply(a, c); Answered(a, c, b, r)
  {
    hide Scan, Told, Saying, Tells, LoggedBy;
    var c := Login(grant, open, revoke);
    OneAnswer(grant);
    OneAnswer(open);
    OneAnswer(revoke);
    LogsOne(a.log, c);
    LogsMore(a.log, c, 1);
    LogsMore(a.log, c, 2);
    if Wrong(grant) { TellsFirst(c, Told(grant)); } else if InPlace(a, c) { LoginTold(c, Apply(a, c).1); }
  }

  lemma LoginTold(c: Call, r: Result)
    requires c.Login? && !Wrong(c.grant)
    requires r == if !Wrong(c.open) then Ok
                  else if c.open.talk.Unwinds? || c.revoke.talk.Unwinds? then Panic else Told(c.open)
    ensures Tells(c, Made(c), r)
  {
    hide Told;
    OneAnswer(c.open);
    assert Wrong(c.open) ==> Wrong(Answers(c)[1]);
    assert r.Err? ==> Reason(Answers(c)[1], r.e);
  }

  lemma LogoutTells(a: Auth, close: Stack, revoke: Stack)
    requires Inv(a)
    ensures var c := Logout(close, revoke); var (b, r) := Apply(a, c); Answered(a, c, b, r)
  {
    hide Scan, Told, Saying, Tells, LoggedBy;
    var c := Logout(close, revoke);
    OneAnswer(close);
    OneAnswer(revoke);
    LogsOne(a.log, c);
    LogsMore(a.log, c, 1);
    if InPlace(a, c) { LogoutTold(c, Apply(a, c).1); }
  }

  lemma LogoutTold(c: Call, r: Result)
    requires c.Logout?
    requires r == if c.close.talk.Unwinds? || c.revoke.talk.Unwinds? then Panic
                  else if Wrong(c.close) then Told(c.close) else Told(c.revoke)
    ensures Tells(c, Made(c), r)
  {
    hide Told;
    OneAnswer(c.close);
    OneAnswer(c.revoke);
    var os := Answers(c);
    assert os[0] == c.close && os[1] == c.revoke;
    if r.Err? && !Wrong(c.close) { assert forall j :: 0 <= j < 1 ==> !Wrong(os[j]); }
  }

  /** Every run of calls, and the next one. A call on the stack is refused exactly where the guide's order does not
      have it, and then changes nothing. In its place it makes its operations in order, the log has the stack's
      answers, and the caller is told of the first that went wrong: success means that none did. The stage
      moves on exactly with that success, and for `logout` whatever the stack answers. */
  lemma StackCallsTell(calls: seq<Call>, c: Call)
    requires c.Check? || c.Login? || c.Logout?
    ensures var a := After(calls);
      var (b, r) := Apply(a, c);
      && Answered(a, c, b, r)
      && (c.Check? ==> (r.Ok? <==> b.stage.AccountChecked? && !a.stage.AccountChecked?))
      && (c.Login? ==> (r.Ok? <==> b.stage.SessionOpen? && !a.stage.SessionOpen?))
      && (c.Logout? ==> (InPlace(a, c) && !r.Panic? <==> b.stage.Ended? && !a.stage.Ended?))
      && (b.stage == a.stage || r.Ok? || c.Logout?)
  {
    hide After, Answered, Scan, Told;
    AfterInv(calls);
    var a := After(calls);
    match c
    case Check(verdict) =>
      CheckTells(a, verdict);
      OneAnswer(verdict);
    case Login(grant, open, revoke) =>
      LoginTells(a, grant, open, revoke);
      OneAnswer(grant);
      OneAnswer(open);
      OneAnswer(revoke);
    case Logout(close, revoke) =>
      LogoutTells(a, close, revoke);
      OneAnswer(close);
      OneAnswer(revoke);
  }

  /** What an exchange comes to, as the caller of `begin` or `respond` is told. */
  function Verdict(move: Move): Result {
    match move
    case Prompts => Prompt
    case Passes => Done
    case Refuses(code) => Err(Pam(code))
    case TimesOut => Err(Timeout)
    case Panics => Panic
  }

  /** Every run of calls, and a `begin` or `respond`. It is refused exactly where no exchange can begin, or where no
      prompt is waiting. Otherwise the caller is told what the exchange came to, and the stage says the same:
      `Done` is returned exactly when the user becomes authenticated. */
  lemma ExchangeCallsTell(calls: seq<Call>, c: Call)
    requires c.Begin? || c.Respond?
    ensures var a := After(calls);
      var (b, r) := Apply(a, c);
      && (r == Err(OutOfSequence) <==> !InPlace(a, c))
      && (InPlace(a, c) ==> r == if c.Begin? && c.failure.Some? then Err(Os(c.failure.value)) else Verdict(c.move))
      && (r.Done? <==> b.stage.Authenticated? && !a.stage.Authenticated?)
      && (InPlace(a, c) ==>
            b.stage == if r.Done? then Authenticated else if r.Prompt? || r.Panic? then Authenticating else Failed)
      && (r.Prompt? ==> b.held == Exchange(P.Prompting))
      && (!InPlace(a, c) ==> b == a || (a.held == Exchange(P.Ended) && b == Auth(Transaction, Failed, a.log)))
  {
    hide After, Scan;
    AfterInv(calls);
    var a := After(calls);
    assert a.log + [] == a.log;
  }

  /** Every run of calls, outside a session. Credentials are held exactly when, since the last time the stack
      granted them, it refused every revocation that was tried, or none was tried because the login was cut
      short: the grant was reported as a failure, or the opening of the session unwound. */
  lemma {:induction false} KeptOutside(calls: seq<Call>)
    requires !After(calls).stage.SessionOpen?
    ensures var log := After(calls).log;
      var i := LastGrant(log);
      Kept(log) <==>
        (i.Some? && (forall n :: i.value < n < |log| && log[n].Delete? ==> !log[n].ok)
         && (Tried(log, i.value) || Cut(log, i.value)))
  {
    hide After, Tried, Cut, Unwinding, LastGrant;
    AfterInv(calls);
    var log := After(calls).log;
    ScanCredits(log);
    KeptIs(log);
  }

  /** Every run of calls, in a session. Credentials are held unless a logout was cut short by a panic in the very
      call that revoked them. */
  lemma {:induction false} KeptInside(calls: seq<Call>)
    requires After(calls).stage.SessionOpen?
    ensures var log := After(calls).log;
      var i := LastGrant(log);
      i.Some? && (Kept(log) <==> forall n :: i.value < n < |log| ==> log[n] != Delete(true, Unwound))
  {
    hide After, Tried, Cut, LastGrant;
    AfterInv(calls);
    var log := After(calls).log;
    ScanCredits(log);
    KeptIs(log);
  }

  /** Credentials are held exactly while a session is open. */
  ghost predicate Together(a: Auth) { Kept(a.log) <==> a.stage.SessionOpen? }

  /** The stack's answers part the two: a login that grants, does not open and does not revoke; or a logout whose
      revocation fails without unwinding, or works and unwinds. */
  predicate Parts(a: Auth, c: Call) {
    match c
    case Login(grant, open, revoke) =>
      && a.stage.AccountChecked? && a.held.Transaction? && grant.rc.None?
      && (!Saying(grant).Yes? || Saying(open).Unwound? || (Saying(open).No? && revoke.rc.Some?))
    case Logout(close, revoke) =>
      && a.stage.SessionOpen? && a.held.Transaction? && !Saying(close).Unwound?
      && (revoke.rc.Some? <==> !Saying(revoke).Unwound?)
    case _ => false
  }

  lemma TogetherOne(a: Auth, c: Call)
    requires Inv(a) && Together(a)
    ensures Together(Apply(a, c).0) <==> !Parts(a, c)
  {
    hide Kept, Scan, Stepped;
    match c
    case Begin(failure, move) =>
      if (a.stage.Start? || a.stage.Failed?) && a.held.Transaction? {
        SteppedTogether(a.(held := Exchange(P.Started), stage := Authenticating), false, move);
      }
    case Respond(move) => if a.stage.Authenticating? { SteppedTogether(a, true, move); }
    case Check(verdict) => KeptOne(a.log, Account(verdict.rc.None?, Saying(verdict)));
    case Login(grant, open, revoke) =>
      KeptOne(a.log, Granting(grant));
      KeptOne(a.log + [Granting(grant)], Opening(open));
      KeptOne(a.log + [Granting(grant)] + [Opening(open)], Revoking(revoke));
    case Logout(close, revoke) =>
      KeptOne(a.log, Closing(close));
      KeptOne(a.log + [Closing(close)], Revoking(revoke));
  }

  lemma SteppedTogether(a: Auth, responding: bool, move: Move)
    requires a.stage.Authenticating? && !Kept(a.log)
    ensures Together(Stepped(a, responding, move).0)
  {
    hide Kept;
    assert a.log + [] == a.log;
    KeptOne(a.log, Authenticate(true));
    KeptOne(a.log, Authenticate(false));
  }

  /** Credentials are held exactly while a session is open, all through the run. */
  ghost predicate TogetherThrough(calls: seq<Call>) {
    forall k :: 0 <= k <= |calls| ==> Together(After(calls[..k]))
  }

  /** At no call of the run do the stack's answers part the two. */
  ghost predicate NeverParted(calls: seq<Call>) {
    forall k :: 0 <= k < |calls| ==> !Parts(After(calls[..k]), calls[k])
  }

  lemma TogetherOneMore(calls: seq<Call>, c: Call)
    ensures TogetherThrough(calls + [c]) <==> TogetherThrough(calls) && Together(After(calls + [c]))
  {
    hide Together, After;
    var all := calls + [c];
    assert all[..|all|] == all;
    assert forall k :: 0 <= k <= |calls| ==> all[..k] == calls[..k];
  }

  lemma PartedOneMore(calls: seq<Call>, c: Call)
    ensures NeverParted(calls + [c]) <==> NeverParted(calls) && !Parts(After(calls), c)
  {
    hide Parts, After;
    var all := calls + [c];
    assert all[|calls|] == c && all[..|calls|] == calls;
    assert forall k :: 0 <= k < |calls| ==> all[..k] == calls[..k] && all[k] == calls[k];
  }

  /** Every run of calls. Credentials are held exactly while a session is open, all through the run, if and only
      if at no call do the stack's answers part the two. */
  lemma {:induction false} TogetherUnlessParted(calls: seq<Call>)
    ensures TogetherThrough(calls) <==> NeverParted(calls)
    decreases |calls|
  {
    hide After, Apply, Together, Parts;
    if calls == [] {
      StartsTogether();
      assert calls[..0] == [];
    } else {
      hide TogetherThrough, NeverParted;
      var n := |calls| - 1;
      var before, c := calls[..n], calls[n];
      assert calls == before + [c];
      TogetherUnlessParted(before);
      TogetherOneMore(before, c);
      PartedOneMore(before, c);
      AfterInv(before);
      AfterOne(before, c);
      ThroughEnds(before);
      if Together(After(before)) { TogetherOne(After(before), c); }
    }
  }

  lemma AfterOne(calls: seq<Call>, c: Call)
    ensures After(calls + [c]) == Apply(After(calls), c).0
  {
    hide Apply;
    assert (calls + [c])[..|calls|] == calls;
  }

  lemma ThroughEnds(calls: seq<Call>)
    ensures TogetherThrough(calls) ==> Together(After(calls))
  {
    hide After, Together;
    assert calls[..|calls|] == calls;
  }

  lemma StartsTogether()
    ensures Together(After([]))
  {
  }

  const WORKS := Stack(None, Fine)

  /** A login whose session does not open and whose revocation the stack refuses keeps the credentials. */
  lemma {:induction false} RefusedRevocationAtLogin(code: int, other: int)
    ensures var a := After([Begin(None, Passes), Check(WORKS), Login(WORKS, Stack(Some(code), Fine), Stack(Some(other), Fine))]);
      a.stage.AccountChecked? && Kept(a.log)
  {
    Checked();
    var open, revoke := Stack(Some(code), Fine), Stack(Some(other), Fine);
    KeepsBy(Login(WORKS, open, revoke));
  }

  /** A logout whose revocation the stack refuses ends the sequence and keeps the credentials. */
  lemma {:induction false} RefusedRevocationAtLogout(code: int)
    ensures var a := After([Begin(None, Passes), Check(WORKS), Login(WORKS, WORKS, WORKS), Logout(WORKS, Stack(Some(code), Fine))]);
      a.stage.Ended? && Kept(a.log)
  {
    KeepsBy(Login(WORKS, WORKS, WORKS));
    var calls := [Begin(None, Passes), Check(WORKS), Login(WORKS, WORKS, WORKS)];
    var all := calls + [Logout(WORKS, Stack(Some(code), Fine))];
    assert all[..3] == calls;
    KeptOne(After(calls).log, Closing(WORKS));
    KeptOne(After(calls).log + [Closing(WORKS)], Revoking(Stack(Some(code), Fine)));
    assert all == [Begin(None, Passes), Check(WORKS), Login(WORKS, WORKS, WORKS), Logout(WORKS, Stack(Some(code), Fine))];
  }

  /** A panic in the caller's conversation while the session opens unwinds past the revocation. */
  lemma {:induction false} PanicAtLogin(rc: Option<int>, revoke: Stack)
    ensures var a := After([Begin(None, Passes), Check(WORKS), Login(WORKS, Stack(rc, Unwinds), revoke)]);
      a.stage.AccountChecked? && Kept(a.log)
  {
    KeepsBy(Login(WORKS, Stack(rc, Unwinds), revoke));
  }

  lemma Checked()
    ensures var a := After([Begin(None, Passes), Check(WORKS)]);
      a == Auth(Transaction, AccountChecked, [Authenticate(true), Account(true, Yes)])
  {
    var calls := [Begin(None, Passes), Check(WORKS)];
    assert calls[..1] == [Begin(None, Passes)] && calls[..1][..0] == [];
    assert After([]) == Auth(Transaction, Start, []);
    assert [] + [Authenticate(true)] == [Authenticate(true)];
    assert After(calls[..1]) == Auth(Transaction, Authenticated, [Authenticate(true)]);
  }

  /** A login that keeps what it was granted, as the third call. */
  lemma KeepsBy(c: Call)
    requires c.Login? && Saying(c.grant).Yes?
    requires Saying(c.open).No? ==> c.revoke.rc.Some?
    ensures var a := After([Begin(None, Passes), Check(WORKS), c]);
      Kept(a.log) && a.held.Transaction? && a.stage == if Saying(c.open).Yes? then SessionOpen else AccountChecked
  {
    hide Kept;
    Checked();
    var calls := [Begin(None, Passes), Check(WORKS), c];
    assert calls[..2] == [Begin(None, Passes), Check(WORKS)];
    var log := After(calls[..2]).log;
    KeptOne(log, Granting(c.grant));
    KeptOne(log + [Granting(c.grant)], Opening(c.open));
    KeptOne(log + [Granting(c.grant)] + [Opening(c.open)], Revoking(c.revoke));
  }

  /** Every run of calls. The transaction is never lost: it is held here, or an exchange holds it, and an
      exchange is there exactly while authentication is under way or after a round that timed out.
      Authentication is under way exactly when the exchange is parked at a prompt, but for a panic that was
      raised through the call and caught. */
  lemma {:induction false} Parked(calls: seq<Call>)
    ensures var a := After(calls);
      && !a.held.Nothing?
      && (a.held.Exchange? <==> a.stage.Authenticating? || a.held == Exchange(P.Stopped))
      && (a.held == Exchange(P.Stopped) ==> a.stage.Failed?)
      && (a.held != Exchange(P.Ended) ==> (a.stage.Authenticating? <==> a.held == Exchange(P.Prompting)))
      && (a.held == Exchange(P.Ended) ==> a.stage.Authenticating?)
  {
    hide After;
    AfterInv(calls);
  }

  /** The exchange ended while it is still held: the panic that left it so is the last call's result, or the
      calls since were refused and changed nothing. */
  lemma {:induction false} EndedByPanic(calls: seq<Call>) returns (k: nat)
    requires After(calls).held == Exchange(P.Ended)
    ensures k < |calls| && Apply(After(calls[..k]), calls[k]).1.Panic? && After(calls[..k + 1]) == After(calls)
    decreases |calls|
  {
    hide Apply;
    var n := |calls| - 1;
    AfterInv(calls[..n]);
    ApplyInv(After(calls[..n]), calls[n]);
    if After(calls) == After(calls[..n]) {
      k := EndedByPanic(calls[..n]);
      assert calls[..n][..k] == calls[..k] && calls[..n][..k + 1] == calls[..k + 1];
    } else {
      k := n;
      assert calls[..n + 1] == calls;
    }
  }

  /** Why the exception: the stage stays `Authenticating` behind a panic in the first round. */
  lemma {:induction false} PanicLeavesTheStage(calls: seq<Call>)
    requires calls == [Begin(None, Panics)]
    ensures After(calls).stage.Authenticating? && After(calls).held == Exchange(P.Ended)
  {
    assert calls[..0] == [];
    assert After([]).held.Transaction?;
  }

  /** A fresh attempt. From `Failed` it starts, whatever failed before, unless a round timed out and left the
      transaction on its worker; then it is refused and nothing changes. */
  lemma {:induction false} RetryUnlessTimedOut(calls: seq<Call>, move: Move)
    requires After(calls).stage.Failed?
    ensures var a := After(calls);
      var (b, r) := Apply(a, Begin(None, move));
      if a.held == Exchange(P.Stopped) then b == a && r == Err(OutOfSequence)
      else (b, r) == Stepped(Auth(Exchange(P.Started), Authenticating, a.log), false, move) && r != Err(OutOfSequence)
  {
    hide After;
    AfterInv(calls);
  }
}
