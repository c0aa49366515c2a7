/**
 Whole runs of the connection manager: any number of clients in connect and disconnect,
 the supervisors they start, and loss events, interleaved at the lock-held sections and
 at the reads and writes outside the lock.
 */
module ConnectionRuns {
  import opened Prelude
  import opened Connection

  /** Where a client in connect stands: about to do what the name says. */
  datatype ConnectAt = WriteWant | ClearStop | ClearAccount | OpenLink | NoteMissing | NoteFailure
                     | NoteSuccess | CheckSupervisor | CreateSupervisor | StartSupervisor | ConnectDone

  datatype DisconnectAt = UnsetWant | SetStop | CloseLink | DisconnectDone

  /** Created: the thread object exists and has not been started. */
  datatype SuperviseAt = Created | GuardWant | GuardStop | Inspect | Reopen | RecordFailed | ReadSlow
                       | RecordOpened | Sleep | Ended

  /** What a supervisor went through so far, as far as its waits depend on it. */
  datatype Wait = Fast(seconds: nat) | Slow | Reopened

  datatype Thread =
    | Connector(connectAt: ConnectAt)
    | Disconnector(disconnectAt: DisconnectAt)
    | Supervisor(at: SuperviseAt, backoff: nat, waits: seq<Wait>)

  /** supervisor is the thread object the manager last assigned, if any. */
  datatype System = System(link: Link, account: Account, want: bool, stop: bool,
                           threads: seq<Thread>, supervisor: Option<nat>)

  const START := System(NO_LINK, NO_ACCOUNT, false, false, [], None)

  datatype Step =
    | CallConnect
    | CallDisconnect
    | Lose(lost: Option<nat>)
    | Go(thread: nat, attempt: Attempt, threshold: nat)

  predicate SupervisorAlive(s: System) {
    s.supervisor.Some? && s.supervisor.value < |s.threads| &&
    s.threads[s.supervisor.value].Supervisor? && s.threads[s.supervisor.value].at !in {Created, Ended}
  }

  /** The manager's supervisor is a thread object that can be started: none can be twice. */
  predicate Startable(s: System) {
    s.supervisor.Some? && s.supervisor.value < |s.threads| &&
    s.threads[s.supervisor.value].Supervisor? && s.threads[s.supervisor.value].at == Created
  }

  function Moved(s: System, n: nat, t: Thread): System
    requires n < |s.threads|
  {
    s.(threads := s.threads[n := t])
  }

  /** _ensure_supervisor takes no lock: between the assignment and the start another client
      may have assigned its own thread, and then that one is started, or the start raises. */
  function ConnectStep(s: System, n: nat, attempt: Attempt, threshold: nat): System
    requires n < |s.threads| && s.threads[n].Connector?
  {
    match s.threads[n].connectAt
    case WriteWant => Moved(s, n, Connector(ClearStop)).(want := true)
    case ClearStop => Moved(s, n, Connector(ClearAccount)).(stop := false)
    case ClearAccount => Moved(s, n, Connector(OpenLink)).(account := ClearedAccount(s.account))
    case OpenLink =>
      var next := match attempt
        case LibraryMissing => NoteMissing
        case Built => NoteSuccess
        case _ => NoteFailure;
      Moved(s, n, Connector(next)).(link := Opened(s.link, attempt))
    case NoteMissing => Moved(s, n, Connector(ConnectDone)).(account := s.account.(hardError := true))
    case NoteFailure => Moved(s, n, Connector(CheckSupervisor)).(account := Failed(s.account, threshold))
    case NoteSuccess => Moved(s, n, Connector(CheckSupervisor)).(account := Succeeded(s.account))
    case CheckSupervisor =>
      Moved(s, n, Connector(if SupervisorAlive(s) then ConnectDone else CreateSupervisor))
    case CreateSupervisor =>
      s.(threads := s.threads[n := Connector(StartSupervisor)] + [Supervisor(Created, 2, [])],
         supervisor := Some(|s.threads|))
    case StartSupervisor =>
      if Startable(s) then
        var v := s.supervisor.value;
        Moved(Moved(s, v, s.threads[v].(at := GuardWant)), n, Connector(ConnectDone))
      else Moved(s, n, Connector(ConnectDone))
    case ConnectDone => s
  }

  function DisconnectStep(s: System, n: nat): System
    requires n < |s.threads| && s.threads[n].Disconnector?
  {
    match s.threads[n].disconnectAt
    case UnsetWant => Moved(s, n, Disconnector(SetStop)).(want := false)
    case SetStop => Moved(s, n, Disconnector(CloseLink)).(stop := true)
    case CloseLink =>
      Moved(s, n, Disconnector(DisconnectDone)).(link := AllClosed(s.link), account := ClearedAccount(s.account))
    case DisconnectDone => s
  }

  /** The next state of the supervisor's own variables. */
  function Supervised(s: System, t: Thread, attempt: Attempt): (t': Thread)
    requires t.Supervisor?
    ensures t'.Supervisor?
  {
    match t.at
    case GuardWant => t.(at := if s.want then GuardStop else Ended)
    case GuardStop => t.(at := if s.stop then Ended else Inspect)
    case Inspect => t.(at := if s.link.current.None? then Reopen else Sleep)
    case Reopen => t.(at := if attempt.Built? then RecordOpened else RecordFailed)
    case RecordFailed => t.(at := ReadSlow)
    case ReadSlow =>
      if s.account.slow then t.(at := GuardWant, waits := t.waits + [Slow])
      else t.(at := GuardWant, waits := t.waits + [Fast(t.backoff)], backoff := Min(t.backoff * 2, 60))
    case RecordOpened => t.(at := Sleep, waits := t.waits + [Reopened], backoff := 2)
    case Sleep => t.(at := GuardWant)
    case Created => t
    case Ended => t
  }

  function SuperviseStep(s: System, n: nat, attempt: Attempt, threshold: nat): System
    requires n < |s.threads| && s.threads[n].Supervisor?
  {
    var t := s.threads[n];
    var s' := Moved(s, n, Supervised(s, t, attempt));
    match t.at
    case Reopen => s'.(link := Opened(s.link, attempt))
    case RecordFailed => s'.(account := Failed(s.account, threshold))
    case RecordOpened => s'.(account := Succeeded(s.account))
    case _ => s'
  }

  function Next(s: System, step: Step): System {
    match step
    case CallConnect => s.(threads := s.threads + [Connector(WriteWant)])
    case CallDisconnect => s.(threads := s.threads + [Disconnector(UnsetWant)])
    case Lose(lost) =>
      if lost.Some? && lost.value >= s.link.built then s else s.(link := Dropped(s.link, lost))
    case Go(n, attempt, threshold) =>
      if n >= |s.threads| then s
      else
        match s.threads[n]
        case Connector(_) => ConnectStep(s, n, attempt, threshold)
        case Disconnector(_) => DisconnectStep(s, n)
        case Supervisor(_, _, _) => SuperviseStep(s, n, attempt, threshold)
  }

  /** From s on. */
  function Run(s: System, steps: seq<Step>): System {
    if steps == [] then s else Next(Run(s, steps[..|steps| - 1]), steps[|steps| - 1])
  }

  // ---------------------------------------------------------------------
  // Interfaces and failures in every run
  // ---------------------------------------------------------------------

  /** The only ways a step changes the interfaces. */
  lemma LinkChanges(s: System, step: Step)
    ensures var l, l' := s.link, Next(s, step).link;
      || l' == l
      || l' == AllClosed(l)
      || (step.Go? && l' == Opened(l, step.attempt))
      || (step.Lose? && (step.lost.Some? ==> step.lost.value < l.built) && l' == Dropped(l, step.lost))
  {
    hide AllClosed, Opened, Dropped, Failed, Succeeded, ClearedAccount, SupervisorAlive, Supervised;
  }

  /** The only ways a step changes the counters. */
  lemma AccountChanges(s: System, step: Step)
    ensures var a, a' := s.account, Next(s, step).account;
      || a' == a
      || a' == a.(hardError := true)
      || a' == ClearedAccount(a)
      || a' == Succeeded(a)
      || (step.Go? && a' == Failed(a, step.threshold))
  {
    hide AllClosed, Opened, Dropped, Failed, Succeeded, ClearedAccount, SupervisorAlive, Supervised;
  }

  lemma StepKeepsTidy(s: System, step: Step)
    requires Tidy(s.link)
    ensures Tidy(Next(s, step).link)
  {
    LinkChanges(s, step);
    OpeningKeepsTidy(s.link, Refused);
    if step.Go? {
      OpeningKeepsTidy(s.link, step.attempt);
    }
    if step.Lose? && (step.lost.Some? ==> step.lost.value < s.link.built) {
      DroppingKeepsTidy(s.link, step.lost);
    }
    hide Tidy, Next, Dropped;
  }

  /** In every interleaving at most the newest interface is open, and every older one was
      passed to close(). */
  lemma {:induction false} RunsStayTidy(steps: seq<Step>)
    ensures Tidy(Run(START, steps).link)
  {
    if steps != [] {
      RunsStayTidy(steps[..|steps| - 1]);
      StepKeepsTidy(Run(START, steps[..|steps| - 1]), steps[|steps| - 1]);
    }
  }

  /** A new interface is built only after every earlier one was passed to close(). */
  lemma NewOnlyAfterOldClosed(steps: seq<Step>, step: Step)
    requires Next(Run(START, steps), step).link.built != Run(START, steps).link.built
    ensures var before, after := Run(START, steps).link, Next(Run(START, steps), step).link;
      && after.built == before.built + 1 && after.current == Some(before.built)
      && forall i | 0 <= i < before.built :: i in after.closed
  {
    hide Run, Next, Tidy;
    RunsStayTidy(steps);
    LinkChanges(Run(START, steps), step);
    if step.Go? {
      OpeningKeepsTidy(Run(START, steps).link, step.attempt);
    }
  }

  /** The step ends the current interface: a loss that names it or none, an attempt that
      gets as far as closing it, or a disconnect that closes it. A loss of an older interface
      is none of these. */
  predicate EndsCurrent(s: System, step: Step) {
    match step
    case CallConnect => false
    case CallDisconnect => false
    case Lose(lost) => lost.None? || lost == s.link.current
    case Go(n, attempt, _) =>
      n < |s.threads| &&
      match s.threads[n]
      case Connector(at) => at == OpenLink && ClosesFirst(attempt)
      case Disconnector(at) => at == CloseLink
      case Supervisor(at, _, _) => at == Reopen && ClosesFirst(attempt)
  }

  predicate ClosesFirst(attempt: Attempt) {
    !attempt.LibraryMissing? && !attempt.ImportFailed?
  }

  lemma StepEndsCurrent(s: System, step: Step, i: nat)
    requires Tidy(s.link) && i < s.link.built
    ensures var l, l' := s.link, Next(s, step).link;
      && l'.built >= l.built
      && (l'.current == Some(i) <==> l.current == Some(i) && !EndsCurrent(s, step))
  {
    StepOnLink(s, step);
    hide Next;
  }

  /** What a step does to the interfaces. */
  function LinkAfter(s: System, step: Step): Link {
    match step
    case CallConnect => s.link
    case CallDisconnect => s.link
    case Lose(lost) => if lost.Some? && lost.value >= s.link.built then s.link else Dropped(s.link, lost)
    case Go(n, attempt, _) =>
      if n >= |s.threads| then s.link
      else
        match s.threads[n]
        case Connector(at) => if at == OpenLink then Opened(s.link, attempt) else s.link
        case Disconnector(at) => if at == CloseLink then AllClosed(s.link) else s.link
        case Supervisor(at, _, _) => if at == Reopen then Opened(s.link, attempt) else s.link
  }

  lemma StepOnLink(s: System, step: Step)
    ensures Next(s, step).link == LinkAfter(s, step)
  {
    hide AllClosed, Opened, Dropped, Failed, Succeeded, ClearedAccount, SupervisorAlive, Startable, Supervised;
  }

  /** The j-th step ends the interface that is current then. */
  predicate EndsAt(steps: seq<Step>, j: nat)
    requires j < |steps|
  {
    EndsCurrent(Run(START, steps[..j]), steps[j])
  }

  ghost predicate NeverEnds(steps: seq<Step>, k: nat) {
    forall j: nat | k <= j < |steps| :: !EndsAt(steps, j)
  }

  lemma NeverEndsStep(steps: seq<Step>, k: nat)
    requires k < |steps|
    ensures var n := |steps| - 1;
      NeverEnds(steps, k) <==> NeverEnds(steps[..n], k) && !EndsAt(steps, n)
  {
    var front := steps[..|steps| - 1];
    forall j: nat | k <= j < |front| ensures EndsAt(front, j) <==> EndsAt(steps, j) {
      EndsInFront(steps, j);
    }
    hide EndsAt;
  }

  lemma EndsInFront(steps: seq<Step>, j: nat)
    requires j < |steps| - 1
    ensures EndsAt(steps[..|steps| - 1], j) <==> EndsAt(steps, j)
  {
    hide EndsCurrent, Run;
    assert steps[..|steps| - 1][..j] == steps[..j];
  }

  lemma EndsLast(steps: seq<Step>)
    requires steps != []
    ensures var n := |steps| - 1; EndsAt(steps, n) <==> EndsCurrent(Run(START, steps[..n]), steps[n])
  {
    hide EndsCurrent, Run;
  }

  lemma NothingYet(steps: seq<Step>)
    ensures NeverEnds(steps, |steps|)
  {
  }

  lemma CurrentIsBuilt(l: Link, i: nat)
    requires Tidy(l) && l.current == Some(i)
    ensures i < l.built
  {
  }

  /**
   In every run, an interface stays the current one exactly until it is itself lost or
   closed: no late loss of an older interface ever takes its place away.
   */
  lemma {:induction false} CurrentStaysExactly(steps: seq<Step>, k: nat, i: nat)
    requires k <= |steps| && Run(START, steps[..k]).link.current == Some(i)
    ensures i < Run(START, steps).link.built
    ensures Run(START, steps).link.current == Some(i) <==> NeverEnds(steps, k)
  {
    hide *;
    if k == |steps| {
      assert steps[..k] == steps;
      RunsStayTidy(steps);
      CurrentIsBuilt(Run(START, steps).link, i);
      NothingYet(steps);
    } else {
      var front := steps[..|steps| - 1];
      assert front[..k] == steps[..k];
      CurrentStaysExactly(front, k, i);
      RunsStayTidy(front);
      RunStep(START, steps);
      NeverEndsStep(steps, k);
      EndsLast(steps);
      StepEndsCurrent(Run(START, front), steps[|front|], i);
    }
  }

  lemma {:induction false} RunsStayHonest(steps: seq<Step>)
    ensures Honest(Run(START, steps).account)
  {
    if steps != [] {
      var s, step := Run(START, steps[..|steps| - 1]), steps[|steps| - 1];
      RunsStayHonest(steps[..|steps| - 1]);
      hide Next, Run;
      AccountChanges(s, step);
      AccountingStaysHonest(s.account, if step.Go? then step.threshold else 0);
      assert Run(START, steps) == Next(s, step) by {
        RunStep(START, steps);
      }
    }
  }

  lemma RunStep(s: System, steps: seq<Step>)
    requires steps != []
    ensures Run(s, steps) == Next(Run(s, steps[..|steps| - 1]), steps[|steps| - 1])
  {
  }

  lemma {:induction false} ThresholdsAreLogged(steps: seq<Step>, threshold: nat)
    requires forall k | 0 <= k < |steps| && steps[k].Go? :: steps[k].threshold == threshold
    ensures forall k | 0 <= k < |Run(START, steps).account.log| && Run(START, steps).account.log[k].Failure? ::
      Run(START, steps).account.log[k].threshold == threshold
  {
    if steps != [] {
      ThresholdsAreLogged(steps[..|steps| - 1], threshold);
      RunStep(START, steps);
      hide Run, Next;
      AccountChanges(Run(START, steps[..|steps| - 1]), steps[|steps| - 1]);
    }
  }

  /**
   With a fixed threshold of at least one, in every reachable state the failure counter
   is the length of the trailing run of failures, and the slow cadence is on exactly when
   that run has reached the threshold.
   */
  lemma SlowExactlyAtThreshold(steps: seq<Step>, threshold: nat)
    requires threshold >= 1
    requires forall k | 0 <= k < |steps| && steps[k].Go? :: steps[k].threshold == threshold
    ensures var a := Run(START, steps).account;
      a.failures == TrailingFailures(a.log) && (a.slow <==> a.failures >= threshold)
  {
    hide Run;
    RunsStayHonest(steps);
    ThresholdsAreLogged(steps, threshold);
    FixedThreshold(Run(START, steps).account.log, threshold);
  }

  // ---------------------------------------------------------------------
  // Every failed attempt is counted
  // ---------------------------------------------------------------------

  /** The thread is about to attempt to open the link. */
  predicate IsTrying(t: Thread) {
    match t
    case Connector(at) => at == OpenLink
    case Disconnector(_) => false
    case Supervisor(at, _, _) => at == Reopen
  }

  /** How the attempt went that was the last thing thread n did, if that was an attempt. */
  function JustTried(steps: seq<Step>, n: nat): Option<Attempt> {
    if steps == [] then None
    else
      var front, step := steps[..|steps| - 1], steps[|steps| - 1];
      if step.Go? && step.thread == n then
        var s := Run(START, front);
        if n < |s.threads| && IsTrying(s.threads[n]) then Some(step.attempt) else None
      else JustTried(front, n)
  }

  /** The turn right after an attempt that built nothing, a missing library in connect apart. */
  predicate CountsFailure(steps: seq<Step>, step: Step) {
    step.Go? &&
    var s, tried := Run(START, steps), JustTried(steps, step.thread);
    && tried.Some? && !tried.value.Built?
    && step.thread < |s.threads| && (s.threads[step.thread].Connector? ==> !tried.value.LibraryMissing?)
  }

  /** The turn right after an attempt that built an interface, a connect's clearing turn, or a
      disconnect's closing one. */
  predicate Resets(steps: seq<Step>, step: Step) {
    step.Go? &&
    var s, tried := Run(START, steps), JustTried(steps, step.thread);
    && step.thread < |s.threads|
    && (|| (tried.Some? && tried.value.Built?)
        || s.threads[step.thread] == Connector(ClearAccount)
        || s.threads[step.thread] == Disconnector(CloseLink))
  }

  /** Failed attempts since the last reset, counted over the steps of the threads. */
  function FailedSince(steps: seq<Step>): nat {
    if steps == [] then 0
    else
      var front, step := steps[..|steps| - 1], steps[|steps| - 1];
      if Resets(front, step) then 0
      else if CountsFailure(front, step) then FailedSince(front) + 1
      else FailedSince(front)
  }

  /** The place of a thread tells how its last attempt went. */
  predicate PlaceTells(t: Thread, tried: Option<Attempt>) {
    match t
    case Connector(at) =>
      && (at == NoteMissing <==> tried == Some(LibraryMissing))
      && (at == NoteSuccess <==> tried == Some(Built))
      && (at == NoteFailure <==> tried.Some? && !tried.value.Built? && !tried.value.LibraryMissing?)
    case Disconnector(_) => tried.None?
    case Supervisor(at, _, _) =>
      && (at == RecordOpened <==> tried == Some(Built))
      && (at == RecordFailed <==> tried.Some? && !tried.value.Built?)
  }

  lemma TurnTells(s: System, step: Step)
    requires step.Go? && step.thread < |s.threads|
    ensures var t := s.threads[step.thread];
      step.thread < |Next(s, step).threads| &&
      PlaceTells(Next(s, step).threads[step.thread], if IsTrying(t) then Some(step.attempt) else None)
  {
    match s.threads[step.thread] {
      case Connector(_) =>
        ConnectorTells(s, step.thread, step.attempt, step.threshold);
      case Disconnector(_) =>
        DisconnectorTells(s, step.thread);
      case Supervisor(_, _, _) =>
        SupervisorOnly(s, step.thread, step.attempt, step.threshold, step.thread);
    }
    hide ConnectStep, DisconnectStep, SuperviseStep;
  }

  lemma ConnectorTells(s: System, c: nat, attempt: Attempt, threshold: nat)
    requires c < |s.threads| && s.threads[c].Connector?
    ensures var threads' := ConnectStep(s, c, attempt, threshold).threads;
      c < |threads'| && PlaceTells(threads'[c], if IsTrying(s.threads[c]) then Some(attempt) else None)
  {
    hide Opened, Failed, Succeeded, ClearedAccount, SupervisorAlive, Startable;
    if s.threads[c].connectAt == StartSupervisor {
      StarterOnly(s, c, attempt, threshold, c);
    }
  }

  lemma DisconnectorTells(s: System, d: nat)
    requires d < |s.threads| && s.threads[d].Disconnector?
    ensures var threads' := DisconnectStep(s, d).threads; d < |threads'| && threads'[d].Disconnector?
  {
    hide AllClosed, ClearedAccount;
  }

  lemma OthersKeepPlace(s: System, step: Step, n: nat, tried: Option<Attempt>)
    requires n < |s.threads| && !(step.Go? && step.thread == n)
    requires PlaceTells(s.threads[n], tried)
    ensures n < |Next(s, step).threads| && PlaceTells(Next(s, step).threads[n], tried)
  {
    OthersStay(s, step, n);
    hide Next;
  }

  lemma OthersStay(s: System, step: Step, n: nat)
    requires n < |s.threads| && !(step.Go? && step.thread == n)
    ensures n < |Next(s, step).threads|
    ensures Next(s, step).threads[n] == s.threads[n]
      || (&& s.threads[n].Supervisor? && s.threads[n].at == Created
          && Next(s, step).threads[n] == s.threads[n].(at := GuardWant))
  {
    hide ConnectStep, DisconnectStep, SuperviseStep, Supervised, Dropped;
    if step.Go? && step.thread < |s.threads| {
      match s.threads[step.thread]
      case Connector(_) => ConnectorOnly(s, step.thread, step.attempt, step.threshold, n);
      case Disconnector(_) => DisconnectorOnly(s, step.thread, n);
      case Supervisor(_, _, _) => SupervisorOnly(s, step.thread, step.attempt, step.threshold, n);
    }
  }

  lemma {:induction false} NobodyTried(steps: seq<Step>, n: nat)
    requires n >= |Run(START, steps).threads|
    ensures JustTried(steps, n) == None
  {
    if steps != [] {
      var front, step := steps[..|steps| - 1], steps[|steps| - 1];
      RunStep(START, steps);
      ThreadsStay(Run(START, front), step);
      hide Run, Next;
      NobodyTried(front, n);
    }
  }

  lemma ThreadsStay(s: System, step: Step)
    ensures |s.threads| <= |Next(s, step).threads|
  {
    hide AllClosed, Opened, Dropped, Failed, Succeeded, ClearedAccount, SupervisorAlive, Supervised;
  }

  lemma {:induction false} PlacesTell(steps: seq<Step>, n: nat)
    requires n < |Run(START, steps).threads|
    ensures PlaceTells(Run(START, steps).threads[n], JustTried(steps, n))
  {
    if steps != [] {
      var front, step := steps[..|steps| - 1], steps[|steps| - 1];
      var s := Run(START, front);
      RunStep(START, steps);
      hide Run, Next, PlaceTells, IsTrying;
      if n >= |s.threads| {
        NobodyTried(front, n);
        NewThreads(s, step, n);
        NewPlaceTells(Next(s, step).threads[n]);
      } else if step.Go? && step.thread == n {
        TurnTells(s, step);
      } else {
        PlacesTell(front, n);
        OthersKeepPlace(s, step, n, JustTried(front, n));
      }
    }
  }

  lemma NewPlaceTells(t: Thread)
    requires t in {Connector(WriteWant), Disconnector(UnsetWant), Supervisor(Created, 2, [])}
    ensures PlaceTells(t, None)
  {
  }

  /** What a step does to the failure counter, by the place of the thread that takes it. */
  lemma StepOnFailures(s: System, step: Step)
    ensures Next(s, step).account.failures ==
      if step.Go? && step.thread < |s.threads| then
        match s.threads[step.thread]
        case Connector(at) =>
          if at == NoteFailure then s.account.failures + 1
          else if at == NoteSuccess || at == ClearAccount then 0
          else s.account.failures
        case Disconnector(at) => if at == CloseLink then 0 else s.account.failures
        case Supervisor(at, _, _) =>
          if at == RecordFailed then s.account.failures + 1
          else if at == RecordOpened then 0
          else s.account.failures
      else s.account.failures
  {
    hide Opened, Dropped, AllClosed, SupervisorAlive, Startable, Supervised;
  }

  /** In every run, the failure counter is the number of failed attempts since the last one
      that succeeded, or the last connect or disconnect. */
  lemma {:induction false} FailuresAreCounted(steps: seq<Step>)
    ensures Run(START, steps).account.failures == FailedSince(steps)
  {
    if steps != [] {
      var front, step := steps[..|steps| - 1], steps[|steps| - 1];
      var s := Run(START, front);
      FailuresAreCounted(front);
      RunStep(START, steps);
      StepOnFailures(s, step);
      if step.Go? {
        if step.thread < |s.threads| {
          PlacesTell(front, step.thread);
        } else {
          NobodyTried(front, step.thread);
        }
      }
      hide Run, Next, JustTried;
    }
  }

  /** The library was missing at the last connect, and nothing reset that. */
  function MissingSince(steps: seq<Step>): bool {
    if steps == [] then false
    else
      var front, step := steps[..|steps| - 1], steps[|steps| - 1];
      if Resets(front, step) then false else MissingSince(front) || CountsMissing(front, step)
  }

  /** The turn of a connect right after an attempt that found no library. */
  predicate CountsMissing(steps: seq<Step>, step: Step) {
    step.Go? &&
    var s := Run(START, steps);
    && step.thread < |s.threads| && s.threads[step.thread].Connector?
    && JustTried(steps, step.thread) == Some(LibraryMissing)
  }

  lemma StepOnHardError(s: System, step: Step)
    ensures Next(s, step).account.hardError <==>
      if step.Go? && step.thread < |s.threads| then
        match s.threads[step.thread]
        case Connector(at) => at == NoteMissing || (s.account.hardError && at != NoteSuccess && at != ClearAccount)
        case Disconnector(at) => s.account.hardError && at != CloseLink
        case Supervisor(at, _, _) => s.account.hardError && at != RecordOpened
      else s.account.hardError
  {
    hide Opened, Dropped, AllClosed, SupervisorAlive, Startable, Supervised;
  }

  /** In every run, the hard error is on exactly when the last connect found no library, and
      no success, connect or disconnect came since. */
  lemma {:induction false} HardErrorExactly(steps: seq<Step>)
    ensures Run(START, steps).account.hardError <==> MissingSince(steps)
  {
    if steps != [] {
      var front, step := steps[..|steps| - 1], steps[|steps| - 1];
      var s := Run(START, front);
      HardErrorExactly(front);
      RunStep(START, steps);
      StepOnHardError(s, step);
      if step.Go? {
        if step.thread < |s.threads| {
          PlacesTell(front, step.thread);
        } else {
          NobodyTried(front, step.thread);
        }
      }
      hide Run, Next, JustTried;
    }
  }

  /** A client makes sure of a supervisor: it goes on to create one exactly when the manager's
      last thread is missing, was never started, or has ended. */
  lemma CheckIsExact(s: System, c: nat, attempt: Attempt, threshold: nat)
    requires c < |s.threads| && s.threads[c] == Connector(CheckSupervisor)
    requires s.supervisor.Some? ==> s.supervisor.value < |s.threads| && s.threads[s.supervisor.value].Supervisor?
    ensures Next(s, Go(c, attempt, threshold)) == s.(threads := s.threads[c := Connector(
      if s.supervisor.Some? && s.threads[s.supervisor.value].at !in {Created, Ended} then ConnectDone
      else CreateSupervisor)])
  {
  }

  /** The thread it creates becomes the manager's. */
  lemma CreateIsExact(s: System, c: nat, attempt: Attempt, threshold: nat)
    requires c < |s.threads| && s.threads[c] == Connector(CreateSupervisor)
    ensures Next(s, Go(c, attempt, threshold)) ==
      s.(threads := s.threads[c := Connector(StartSupervisor)] + [Supervisor(Created, 2, [])],
         supervisor := Some(|s.threads|))
  {
  }

  /** It starts the manager's thread, its own or by then another's, unless that was started. */
  lemma StartIsExact(s: System, c: nat, attempt: Attempt, threshold: nat)
    requires c < |s.threads| && s.threads[c] == Connector(StartSupervisor)
    requires s.supervisor.Some? && s.supervisor.value < |s.threads| && s.threads[s.supervisor.value].Supervisor?
    ensures var v, s' := s.supervisor.value, Next(s, Go(c, attempt, threshold));
      && |s'.threads| == |s.threads| && s'.threads[c] == Connector(ConnectDone)
      && s'.threads[v] ==
           if s.threads[v].at == Created then s.threads[v].(at := GuardWant) else s.threads[v]
  {
  }

  /**
   With a fixed threshold of at least one, in every run: the slow cadence is on exactly when
   that many attempts in a row have failed since the last success, connect or disconnect.
   */
  lemma SlowAfterThatManyFailures(steps: seq<Step>, threshold: nat)
    requires threshold >= 1
    requires forall k | 0 <= k < |steps| && steps[k].Go? :: steps[k].threshold == threshold
    ensures Run(START, steps).account.slow <==> FailedSince(steps) >= threshold
  {
    hide Run, FailedSince;
    SlowExactlyAtThreshold(steps, threshold);
    FailuresAreCounted(steps);
  }

  // ---------------------------------------------------------------------
  // Clients take their steps in order
  // ---------------------------------------------------------------------

  /** The places from which thread n, a client in connect, took its turns so far. */
  function ConnectPlaces(steps: seq<Step>, n: nat): seq<ConnectAt> {
    if steps == [] then []
    else
      var front, step := steps[..|steps| - 1], steps[|steps| - 1];
      var s := Run(START, front);
      if step.Go? && step.thread == n < |s.threads| && s.threads[n].Connector?
         && s.threads[n].connectAt != ConnectDone then
        ConnectPlaces(front, n) + [s.threads[n].connectAt]
      else ConnectPlaces(front, n)
  }

  function DisconnectPlaces(steps: seq<Step>, n: nat): seq<DisconnectAt> {
    if steps == [] then []
    else
      var front, step := steps[..|steps| - 1], steps[|steps| - 1];
      var s := Run(START, front);
      if step.Go? && step.thread == n < |s.threads| && s.threads[n].Disconnector?
         && s.threads[n].disconnectAt != DisconnectDone then
        DisconnectPlaces(front, n) + [s.threads[n].disconnectAt]
      else DisconnectPlaces(front, n)
  }

  const ATTEMPT := [WriteWant, ClearStop, ClearAccount, OpenLink]

  /** What a client in connect has behind it, at each place. */
  ghost predicate ConnectPath(places: seq<ConnectAt>, at: ConnectAt) {
    match at
    case WriteWant => places == []
    case ClearStop => places == [WriteWant]
    case ClearAccount => places == [WriteWant, ClearStop]
    case OpenLink => places == [WriteWant, ClearStop, ClearAccount]
    case NoteMissing => places == ATTEMPT
    case NoteFailure => places == ATTEMPT
    case NoteSuccess => places == ATTEMPT
    case CheckSupervisor => places == ATTEMPT + [NoteFailure] || places == ATTEMPT + [NoteSuccess]
    case CreateSupervisor =>
      || places == ATTEMPT + [NoteFailure, CheckSupervisor] || places == ATTEMPT + [NoteSuccess, CheckSupervisor]
    case StartSupervisor =>
      || places == ATTEMPT + [NoteFailure, CheckSupervisor, CreateSupervisor]
      || places == ATTEMPT + [NoteSuccess, CheckSupervisor, CreateSupervisor]
    case ConnectDone =>
      || places == ATTEMPT + [NoteMissing]
      || places == ATTEMPT + [NoteFailure, CheckSupervisor] || places == ATTEMPT + [NoteSuccess, CheckSupervisor]
      || places == ATTEMPT + [NoteFailure, CheckSupervisor, CreateSupervisor, StartSupervisor]
      || places == ATTEMPT + [NoteSuccess, CheckSupervisor, CreateSupervisor, StartSupervisor]
  }

  ghost predicate DisconnectPath(places: seq<DisconnectAt>, at: DisconnectAt) {
    match at
    case UnsetWant => places == []
    case SetStop => places == [UnsetWant]
    case CloseLink => places == [UnsetWant, SetStop]
    case DisconnectDone => places == [UnsetWant, SetStop, CloseLink]
  }

  ghost predicate OnPath(t: Thread, connects: seq<ConnectAt>, disconnects: seq<DisconnectAt>) {
    match t
    case Connector(at) => ConnectPath(connects, at) && disconnects == []
    case Disconnector(at) => DisconnectPath(disconnects, at) && connects == []
    case Supervisor(_, _, _) => connects == [] && disconnects == []
  }

  ghost predicate ConnectFollows(at: ConnectAt, at': ConnectAt) {
    match at
    case WriteWant => at' == ClearStop
    case ClearStop => at' == ClearAccount
    case ClearAccount => at' == OpenLink
    case OpenLink => at' in {NoteMissing, NoteFailure, NoteSuccess}
    case NoteFailure => at' == CheckSupervisor
    case NoteSuccess => at' == CheckSupervisor
    case CheckSupervisor => at' in {CreateSupervisor, ConnectDone}
    case CreateSupervisor => at' == StartSupervisor
    case _ => at' == ConnectDone
  }

  ghost predicate DisconnectFollows(at: DisconnectAt, at': DisconnectAt) {
    match at
    case UnsetWant => at' == SetStop
    case SetStop => at' == CloseLink
    case _ => at' == DisconnectDone
  }

  /** A turn of a client, and the place it gets to. */
  lemma ClientTurn(s: System, step: Step)
    requires step.Go? && step.thread < |s.threads|
    ensures var t := s.threads[step.thread];
      step.thread < |Next(s, step).threads| &&
      var t' := Next(s, step).threads[step.thread];
      && (t.Supervisor? ==> t'.Supervisor?)
      && (t.Disconnector? ==> t'.Disconnector? && DisconnectFollows(t.disconnectAt, t'.disconnectAt))
      && (t.Connector? ==> t'.Connector? && ConnectFollows(t.connectAt, t'.connectAt))
  {
    match s.threads[step.thread] {
      case Connector(_) =>
        ConnectorTurn(s, step.thread, step.attempt, step.threshold);
      case Disconnector(_) =>
        hide AllClosed, ClearedAccount;
      case Supervisor(_, _, _) =>
        SupervisorOnly(s, step.thread, step.attempt, step.threshold, step.thread);
    }
    hide ConnectStep, SuperviseStep;
  }

  lemma ConnectorTurn(s: System, c: nat, attempt: Attempt, threshold: nat)
    requires c < |s.threads| && s.threads[c].Connector?
    ensures var threads', at := ConnectStep(s, c, attempt, threshold).threads, s.threads[c].connectAt;
      c < |threads'| && threads'[c].Connector? && ConnectFollows(at, threads'[c].connectAt)
  {
    hide Opened, Failed, Succeeded, ClearedAccount, SupervisorAlive, Startable;
    if s.threads[c].connectAt == StartSupervisor {
      StarterOnly(s, c, attempt, threshold, c);
    }
  }

  lemma TurnOnPath(t: Thread, t': Thread, connects: seq<ConnectAt>, disconnects: seq<DisconnectAt>,
                   s: System, step: Step)
    requires step.Go? && step.thread < |s.threads| && t == s.threads[step.thread] && OnPath(t, connects, disconnects)
    requires step.thread < |Next(s, step).threads| && t' == Next(s, step).threads[step.thread]
    ensures OnPath(t', if t.Connector? && t.connectAt != ConnectDone then connects + [t.connectAt] else connects,
                       if t.Disconnector? && t.disconnectAt != DisconnectDone then disconnects + [t.disconnectAt]
                       else disconnects)
  {
    ClientTurn(s, step);
    hide Next;
  }

  lemma {:induction false} NoPlacesYet(steps: seq<Step>, n: nat)
    requires n >= |Run(START, steps).threads|
    ensures ConnectPlaces(steps, n) == [] && DisconnectPlaces(steps, n) == []
  {
    if steps != [] {
      var front, step := steps[..|steps| - 1], steps[|steps| - 1];
      RunStep(START, steps);
      ThreadsStay(Run(START, front), step);
      hide Run, Next;
      NoPlacesYet(front, n);
    }
  }

  /** In every run, every client takes the steps of connect, or of disconnect, one after the
      other and leaves none out. */
  lemma {:induction false} ClientsKeepOrder(steps: seq<Step>, n: nat)
    requires n < |Run(START, steps).threads|
    ensures OnPath(Run(START, steps).threads[n], ConnectPlaces(steps, n), DisconnectPlaces(steps, n))
  {
    if steps != [] {
      var front, step := steps[..|steps| - 1], steps[|steps| - 1];
      var s := Run(START, front);
      RunStep(START, steps);
      hide Run, Next, OnPath;
      if n >= |s.threads| {
        NoPlacesYet(front, n);
        NewThreads(s, step, n);
        NewOnPath(Next(s, step).threads[n]);
      } else {
        ClientsKeepOrder(front, n);
        if step.Go? && step.thread == n {
          TurnOnPath(s.threads[n], Next(s, step).threads[n], ConnectPlaces(front, n), DisconnectPlaces(front, n), s, step);
        } else {
          OthersStay(s, step, n);
          RestartOnPath(s.threads[n], Next(s, step).threads[n], ConnectPlaces(front, n), DisconnectPlaces(front, n));
        }
      }
    }
  }

  lemma NewOnPath(t: Thread)
    requires t in {Connector(WriteWant), Disconnector(UnsetWant), Supervisor(Created, 2, [])}
    ensures OnPath(t, [], [])
  {
  }

  lemma RestartOnPath(t: Thread, t': Thread, connects: seq<ConnectAt>, disconnects: seq<DisconnectAt>)
    requires OnPath(t, connects, disconnects) && (t' == t || (t.Supervisor? && t'.Supervisor?))
    ensures OnPath(t', connects, disconnects)
  {
  }

  /** Whether the last connect or disconnect to say so wants the link. */
  function WantedSince(steps: seq<Step>): bool {
    if steps == [] then false
    else
      var front, step := steps[..|steps| - 1], steps[|steps| - 1];
      var s := Run(START, front);
      if step.Go? && step.thread < |s.threads| && s.threads[step.thread] == Connector(WriteWant) then true
      else if step.Go? && step.thread < |s.threads| && s.threads[step.thread] == Disconnector(UnsetWant) then false
      else WantedSince(front)
  }

  /** Whether the stop event was last set by a disconnect, or cleared by a connect. */
  function StoppedSince(steps: seq<Step>): bool {
    if steps == [] then false
    else
      var front, step := steps[..|steps| - 1], steps[|steps| - 1];
      var s := Run(START, front);
      if step.Go? && step.thread < |s.threads| && s.threads[step.thread] == Disconnector(SetStop) then true
      else if step.Go? && step.thread < |s.threads| && s.threads[step.thread] == Connector(ClearStop) then false
      else StoppedSince(front)
  }

  lemma StepOnFlags(s: System, step: Step)
    ensures var place := if step.Go? && step.thread < |s.threads| then Some(s.threads[step.thread]) else None;
      && (Next(s, step).want <==> place == Some(Connector(WriteWant))
                                  || (s.want && place != Some(Disconnector(UnsetWant))))
      && (Next(s, step).stop <==> place == Some(Disconnector(SetStop))
                                  || (s.stop && place != Some(Connector(ClearStop))))
  {
    hide Opened, Dropped, AllClosed, Failed, Succeeded, ClearedAccount, SupervisorAlive, Startable, Supervised;
  }

  /** In every run, the two flags are what was last written to them. */
  lemma {:induction false} FlagsAreLastWritten(steps: seq<Step>)
    ensures Run(START, steps).want <==> WantedSince(steps)
    ensures Run(START, steps).stop <==> StoppedSince(steps)
  {
    if steps != [] {
      var front, step := steps[..|steps| - 1], steps[|steps| - 1];
      FlagsAreLastWritten(front);
      RunStep(START, steps);
      StepOnFlags(Run(START, front), step);
      hide Run, Next;
    }
  }

  // ---------------------------------------------------------------------
  // The pace of the supervisor
  // ---------------------------------------------------------------------

  function Pow2(n: nat): nat {
    if n == 0 then 1 else 2 * Pow2(n - 1)
  }

  /** Fast failures since the supervisor started or last reopened the link. */
  function FastSince(waits: seq<Wait>): nat {
    if waits == [] || waits[|waits| - 1].Reopened? then 0
    else FastSince(waits[..|waits| - 1]) + (if waits[|waits| - 1].Fast? then 1 else 0)
  }

  /** The wait after the k-th fast failure in a row. */
  function Pace(k: nat): nat {
    Min(Pow2(k), 60)
  }

  ghost predicate WaitIsPaced(waits: seq<Wait>, k: int)
    requires 0 <= k < |waits|
  {
    waits[k].Fast? ==> waits[k].seconds == Pace(FastSince(waits[..k]) + 1)
  }

  ghost predicate Paced(t: Thread) {
    t.Supervisor? ==> OnPace(t.backoff, t.waits)
  }

  /** Every fast wait so far was the right one, and backoff is what the next one should be. */
  ghost predicate OnPace(backoff: nat, waits: seq<Wait>) {
    backoff == Pace(FastSince(waits) + 1) && AllPaced(waits)
  }

  ghost predicate AllPaced(waits: seq<Wait>) {
    forall k | 0 <= k < |waits| :: WaitIsPaced(waits, k)
  }

  lemma PaceDoubles(k: nat)
    ensures Pace(k + 1) == Min(Pace(k) * 2, 60)
  {
  }

  lemma SupervisorStaysPaced(s: System, t: Thread, attempt: Attempt)
    requires t.Supervisor? && Paced(t)
    ensures Paced(Supervised(s, t, attempt))
  {
    hide OnPace;
    WaitsStayOnPace(t.backoff, t.waits);
  }

  lemma WaitsStayOnPace(backoff: nat, waits: seq<Wait>)
    requires OnPace(backoff, waits)
    ensures OnPace(Min(backoff * 2, 60), waits + [Fast(backoff)])
    ensures OnPace(backoff, waits + [Slow])
    ensures OnPace(2, waits + [Reopened])
  {
    PaceDoubles(FastSince(waits) + 1);
    assert Pace(1) == 2;
    hide Pace, FastSince, AllPaced, Min;
    OneMoreWait(waits, Fast(backoff));
    OneMoreWait(waits, Slow);
    OneMoreWait(waits, Reopened);
  }

  lemma OneMoreWait(waits: seq<Wait>, w: Wait)
    requires AllPaced(waits) && (w.Fast? ==> w.seconds == Pace(FastSince(waits) + 1))
    ensures AllPaced(waits + [w])
    ensures FastSince(waits + [w]) ==
      if w.Reopened? then 0 else FastSince(waits) + (if w.Fast? then 1 else 0)
  {
    var after := waits + [w];
    assert after[..|waits|] == waits;
    hide Pace;
    forall k | 0 <= k < |after| ensures WaitIsPaced(after, k) {
      assert after[..k] == waits[..k];
      assert k < |waits| ==> WaitIsPaced(waits, k);
    }
  }

  /** A client in connect starts a supervisor. */
  predicate IsStart(s: System, step: Step) {
    step.Go? && step.thread < |s.threads| && s.threads[step.thread] == Connector(StartSupervisor)
  }

  /** The only ways a step changes a thread already there. */
  lemma ThreadChanges(s: System, step: Step, n: nat)
    requires n < |s.threads|
    ensures n < |Next(s, step).threads|
    ensures var t, t' := s.threads[n], Next(s, step).threads[n];
      || t' == t
      || (!t.Supervisor? && !t'.Supervisor?)
      || (t.Supervisor? && step.Go? && step.thread == n && t' == Supervised(s, t, step.attempt))
      || (t.Supervisor? && t.at == Created && t' == t.(at := GuardWant) && IsStart(s, step))
  {
    hide ConnectStep, DisconnectStep, SuperviseStep, Supervised, Dropped;
    if step.Go? && step.thread < |s.threads| {
      match s.threads[step.thread]
      case Connector(_) => ConnectorOnly(s, step.thread, step.attempt, step.threshold, n);
      case Disconnector(_) => DisconnectorOnly(s, step.thread, n);
      case Supervisor(_, _, _) => SupervisorOnly(s, step.thread, step.attempt, step.threshold, n);
    }
  }

  lemma ConnectorOnly(s: System, c: nat, attempt: Attempt, threshold: nat, n: nat)
    requires c < |s.threads| && s.threads[c].Connector? && n < |s.threads|
    ensures var threads' := ConnectStep(s, c, attempt, threshold).threads;
      n < |threads'| &&
      if n == c then !threads'[n].Supervisor?
      else
        || threads'[n] == s.threads[n]
        || (&& s.threads[c].connectAt == StartSupervisor
            && s.threads[n].Supervisor? && s.threads[n].at == Created
            && threads'[n] == s.threads[n].(at := GuardWant))
  {
    hide Opened, Failed, Succeeded, ClearedAccount, SupervisorAlive, Startable;
    if s.threads[c].connectAt == StartSupervisor {
      StarterOnly(s, c, attempt, threshold, n);
    }
  }

  lemma StarterOnly(s: System, c: nat, attempt: Attempt, threshold: nat, n: nat)
    requires c < |s.threads| && s.threads[c] == Connector(StartSupervisor) && n < |s.threads|
    ensures var threads' := ConnectStep(s, c, attempt, threshold).threads;
      && |threads'| == |s.threads|
      && (n == c ==> threads'[n] == Connector(ConnectDone))
      && (n != c ==>
            || threads'[n] == s.threads[n]
            || (&& s.threads[n].Supervisor? && s.threads[n].at == Created
                && threads'[n] == s.threads[n].(at := GuardWant)))
  {
  }

  lemma DisconnectorOnly(s: System, d: nat, n: nat)
    requires d < |s.threads| && s.threads[d].Disconnector? && n < |s.threads|
    ensures var threads' := DisconnectStep(s, d).threads;
      n < |threads'| && if n == d then !threads'[n].Supervisor? else threads'[n] == s.threads[n]
  {
    hide AllClosed, ClearedAccount;
  }

  lemma SupervisorOnly(s: System, v: nat, attempt: Attempt, threshold: nat, n: nat)
    requires v < |s.threads| && s.threads[v].Supervisor? && n < |s.threads|
    ensures var threads' := SuperviseStep(s, v, attempt, threshold).threads;
      n < |threads'| && threads'[n] == if n == v then Supervised(s, s.threads[v], attempt) else s.threads[n]
  {
    hide Opened, Failed, Succeeded, Supervised;
  }

  lemma NewThreads(s: System, step: Step, n: nat)
    requires |s.threads| <= n < |Next(s, step).threads|
    ensures Next(s, step).threads[n] in {Connector(WriteWant), Disconnector(UnsetWant), Supervisor(Created, 2, [])}
  {
    hide AllClosed, Opened, Dropped, Failed, Succeeded, ClearedAccount, SupervisorAlive, Supervised;
  }

  // ---------------------------------------------------------------------
  // The supervisor's loop, against what it sees from round to round
  // ---------------------------------------------------------------------

  /** What one round of the loop reads, and how its attempt goes if it makes one. */
  datatype Round = Round(want: bool, stopped: bool, connected: bool, attempt: Attempt, slow: bool)

  const FRESH := Supervisor(GuardWant, 2, [])

  /** The supervisor's next step, in a system that shows what the round reads. */
  function StepIn(t: Thread, r: Round): (t': Thread)
    requires t.Supervisor?
    ensures t'.Supervisor?
  {
    var current := if r.connected then Some(0) else None;
    Supervised(START.(want := r.want, stop := r.stopped, link := NO_LINK.(current := current),
                      account := NO_ACCOUNT.(slow := r.slow)), t, r.attempt)
  }

  /** From the head of the loop back to it, or to its end. */
  function Rounded(t: Thread, r: Round): (t': Thread)
    requires t.Supervisor?
    ensures t'.Supervisor?
  {
    hide StepIn;
    var third := StepIn(StepIn(StepIn(t, r), r), r);
    if third.at.Sleep? then StepIn(third, r) else StepIn(StepIn(StepIn(third, r), r), r)
  }

  function AllRounds(t: Thread, rounds: seq<Round>): (t': Thread)
    requires t.Supervisor?
    ensures t'.Supervisor?
    decreases |rounds|
  {
    hide Rounded;
    if rounds == [] then t else AllRounds(Rounded(t, rounds[0]), rounds[1..])
  }

  lemma {:induction false} EndedStays(t: Thread, rounds: seq<Round>)
    requires t.Supervisor? && t.at.Ended?
    ensures AllRounds(t, rounds) == t
  {
    if rounds != [] {
      EndedStays(t, rounds[1..]);
    }
  }

  lemma OneRound(backoff: nat, waits: seq<Wait>, r: Round)
    ensures Rounded(Supervisor(GuardWant, backoff, waits), r) ==
      if !r.want || r.stopped then Supervisor(Ended, backoff, waits)
      else if r.connected then Supervisor(GuardWant, backoff, waits)
      else if r.attempt.Built? then Supervisor(GuardWant, 2, waits + [Reopened])
      else if r.slow then Supervisor(GuardWant, backoff, waits + [Slow])
      else Supervisor(GuardWant, Min(backoff * 2, 60), waits + [Fast(backoff)])
  {
    hide Min;
  }

  /**
   _supervise, over the rounds it is given to see: it takes exactly the steps of the
   interleaved supervisor, and its waits keep the pace.
   */
  method Supervise(rounds: seq<Round>) returns (ended: bool, backoff: nat, waits: seq<Wait>)
    ensures AllRounds(FRESH, rounds) == Supervisor(if ended then Ended else GuardWant, backoff, waits)
    ensures OnPace(backoff, waits)
  {
    hide OnPace, Rounded, Min;
    backoff, waits := 2, [];
    FreshIsOnPace();
    assert rounds[0..] == rounds;
    for n := 0 to |rounds|
      invariant AllRounds(FRESH, rounds) == AllRounds(Supervisor(GuardWant, backoff, waits), rounds[n..])
      invariant OnPace(backoff, waits)
    {
      var r := rounds[n];
      assert rounds[n..][1..] == rounds[n + 1..];
      WaitsStayOnPace(backoff, waits);
      OneRound(backoff, waits, r);
      if !r.want || r.stopped {
        EndedStays(Supervisor(Ended, backoff, waits), rounds[n + 1..]);
        return true, backoff, waits;
      }
      if r.connected {
        continue;
      }
      if r.attempt.Built? {
        waits, backoff := waits + [Reopened], 2;
      } else if r.slow {
        waits := waits + [Slow];
      } else {
        waits, backoff := waits + [Fast(backoff)], Min(backoff * 2, 60);
      }
    }
    ended := false;
  }

  lemma FreshIsOnPace()
    ensures OnPace(2, [])
  {
  }

  /** In every run, the k-th fast failure of a supervisor since it started or last
      reopened the link waits min(2^k, 60) seconds. */
  lemma {:induction false} SupervisorsArePaced(steps: seq<Step>, n: nat)
    requires n < |Run(START, steps).threads|
    ensures Paced(Run(START, steps).threads[n])
  {
    if steps != [] {
      var s, step := Run(START, steps[..|steps| - 1]), steps[|steps| - 1];
      RunStep(START, steps);
      assert Pace(1) == 2;
      hide Run, Next, Supervised, Pace;
      if n < |s.threads| {
        SupervisorsArePaced(steps[..|steps| - 1], n);
        ThreadChanges(s, step, n);
        if s.threads[n].Supervisor? && step.Go? {
          SupervisorStaysPaced(s, s.threads[n], step.attempt);
        }
      } else {
        NewThreads(s, step, n);
      }
    }
  }

  // ---------------------------------------------------------------------
  // After a disconnect
  // ---------------------------------------------------------------------

  /** Nobody wants the link, and no client is inside connect. */
  ghost predicate Quiet(s: System) {
    !s.want && forall n | 0 <= n < |s.threads| && s.threads[n].Connector? :: s.threads[n].connectAt == ConnectDone
  }

  /** A supervisor that can still open the link: past both guards, or past the first with
      the stop event not yet set. */
  predicate CanStillOpen(s: System, t: Thread) {
    t.Supervisor? && (t.at == Inspect || t.at == Reopen || (t.at == GuardStop && !s.stop))
  }

  function Chances(s: System, t: Thread): nat {
    if CanStillOpen(s, t) then 1 else 0
  }

  /** How many steps a supervisor can still take while nobody wants the link. */
  function StepsLeft(t: Thread): nat {
    if !t.Supervisor? then 0
    else
      match t.at
      case GuardStop => 6
      case Inspect => 5
      case Reopen => 4
      case RecordFailed => 3
      case RecordOpened => 3
      case ReadSlow => 2
      case Sleep => 2
      case GuardWant => 1
      case Created => 0
      case Ended => 0
  }

  predicate IsTurn(s: System, step: Step, n: nat) {
    step.Go? && step.thread == n && n < |s.threads| && s.threads[n].Supervisor? && s.threads[n].at !in {Created, Ended}
  }

  predicate IsAttempt(s: System, step: Step, n: nat) {
    IsTurn(s, step, n) && s.threads[n].at == Reopen
  }

  /** Attempts of supervisor n to open the link, from s on. */
  function Attempts(s: System, steps: seq<Step>, n: nat): nat {
    if steps == [] then 0
    else
      var front := steps[..|steps| - 1];
      Attempts(s, front, n) + (if IsAttempt(Run(s, front), steps[|front|], n) then 1 else 0)
  }

  /** Steps supervisor n took, from s on. */
  function Turns(s: System, steps: seq<Step>, n: nat): nat {
    if steps == [] then 0
    else
      var front := steps[..|steps| - 1];
      Turns(s, front, n) + (if IsTurn(Run(s, front), steps[|front|], n) then 1 else 0)
  }

  lemma StepKeepsQuiet(s: System, step: Step)
    requires Quiet(s) && !step.CallConnect?
    ensures Quiet(Next(s, step)) && |Next(s, step).threads| >= |s.threads|
    ensures s.stop ==> Next(s, step).stop
  {
    hide AllClosed, Opened, Dropped, Failed, Succeeded, ClearedAccount, SupervisorAlive;
  }

  /** In quiet, every turn of a supervisor brings it closer to its end. */
  lemma TurnsRunOut(s: System, step: Step, n: nat)
    requires Quiet(s) && !step.CallConnect? && n < |s.threads| && s.threads[n].Supervisor?
    requires n < |Next(s, step).threads|
    ensures Next(s, step).threads[n].Supervisor?
    ensures StepsLeft(Next(s, step).threads[n]) + (if IsTurn(s, step, n) then 1 else 0) <= StepsLeft(s.threads[n])
    ensures Chances(Next(s, step), Next(s, step).threads[n]) + (if IsAttempt(s, step, n) then 1 else 0)
         <= Chances(s, s.threads[n])
    ensures Next(s, step).threads[n].at == Created <==> s.threads[n].at == Created
  {
    StepKeepsQuiet(s, step);
    ThreadChanges(s, step, n);
    hide Next;
  }

  /**
   From a state where nobody wants the link and no client is inside connect, and as long
   as nobody calls connect, each supervisor makes at most one more attempt to open the
   link, and none unless it can still open it, and has ended after at most six steps of
   its own, if it was ever started.
   */
  lemma {:induction false} AtMostOneLateOpen(s: System, steps: seq<Step>, n: nat)
    requires Quiet(s) && n < |s.threads| && s.threads[n].Supervisor?
    requires forall k | 0 <= k < |steps| :: !steps[k].CallConnect?
    ensures var s' := Run(s, steps);
      && Quiet(s') && n < |s'.threads| && s'.threads[n].Supervisor?
      && Attempts(s, steps, n) + Chances(s', s'.threads[n]) <= Chances(s, s.threads[n]) <= 1
      && Turns(s, steps, n) + StepsLeft(s'.threads[n]) <= StepsLeft(s.threads[n]) <= 6
      && (s'.threads[n].at == Created <==> s.threads[n].at == Created)
      && (Turns(s, steps, n) == 6 ==> s'.threads[n].at == Ended)
  {
    if steps != [] {
      var front := steps[..|steps| - 1];
      AtMostOneLateOpen(s, front, n);
      RunStep(s, steps);
      hide Next, Quiet, IsTurn, IsAttempt, CanStillOpen;
      StepKeepsQuiet(Run(s, front), steps[|front|]);
      TurnsRunOut(Run(s, front), steps[|front|], n);
    }
  }

  // When exactly the link can still be opened

  ghost predicate NoConnect(steps: seq<Step>) {
    forall k | 0 <= k < |steps| :: !steps[k].CallConnect?
  }

  /** After steps, this step of supervisor n builds an interface. */
  ghost predicate Builds(s: System, steps: seq<Step>, step: Step, n: nat) {
    IsAttempt(Run(s, steps), step, n) && Next(Run(s, steps), step).link.built > Run(s, steps).link.built
  }

  lemma BuildsAtReopen(s: System, n: nat, threshold: nat)
    requires n < |s.threads| && s.threads[n].Supervisor? && s.threads[n].at == Reopen
    ensures Builds(s, [], Go(n, Built, threshold), n)
  {
    hide AllClosed;
  }

  /** A step of the supervisor past a guard, and a loss that leaves it no interface to find. */
  lemma StepTowardsReopen(s: System, n: nat, threshold: nat)
    requires n < |s.threads| && s.threads[n].Supervisor?
    ensures var s' := Next(s, Go(n, Built, threshold));
      && (s.threads[n].at == GuardStop && !s.stop ==>
            n < |s'.threads| && s'.threads[n].Supervisor? && s'.threads[n].at == Inspect)
      && (s.threads[n].at == Inspect && s.link.current.None? ==>
            n < |s'.threads| && s'.threads[n].Supervisor? && s'.threads[n].at == Reopen)
    ensures Next(s, Lose(None)).threads == s.threads && Next(s, Lose(None)).link.current.None?
  {
  }

  lemma RunFirst(s: System, first: Step, steps: seq<Step>)
    ensures Run(s, [first] + steps) == Run(Next(s, first), steps)
  {
    RunAppend(s, [first], steps);
    assert [first][..0] == [];
    assert Run(s, [first]) == Next(s, first);
  }

  lemma StillOpens(s: System, n: nat, threshold: nat) returns (steps: seq<Step>, step: Step)
    requires n < |s.threads| && CanStillOpen(s, s.threads[n])
    ensures NoConnect(steps) && !step.CallConnect? && Builds(s, steps, step, n)
    decreases if s.threads[n].at == GuardStop then 1 else 0
  {
    hide Next, Run, IsAttempt;
    var go := Go(n, Built, threshold);
    if s.threads[n].at == Reopen {
      BuildsAtReopen(s, n, threshold);
      return [], go;
    }
    StepTowardsReopen(s, n, threshold);
    if s.threads[n].at == GuardStop {
      steps, step := StillOpens(Next(s, go), n, threshold);
      RunFirst(s, go, steps);
      steps := [go] + steps;
    } else {
      var lost := Next(s, Lose(None));
      StepTowardsReopen(lost, n, threshold);
      BuildsAtReopen(Next(lost, go), n, threshold);
      RunFirst(lost, go, []);
      RunFirst(s, Lose(None), [go] + []);
      steps, step := [Lose(None)] + ([go] + []), go;
    }
  }

  /**
   Once nobody wants the link and no client is inside connect, some course of events
   without a new connect lets supervisor n build an interface exactly when it is past both
   guards, or past the first while the stop event is clear.
   */
  lemma LateOpenExactly(s: System, n: nat)
    requires Quiet(s) && n < |s.threads| && s.threads[n].Supervisor?
    ensures (exists steps: seq<Step>, step: Step :: NoConnect(steps) && !step.CallConnect? && Builds(s, steps, step, n))
       <==> CanStillOpen(s, s.threads[n])
  {
    hide Run, Next, Quiet, CanStillOpen;
    if CanStillOpen(s, s.threads[n]) {
      var steps, step := StillOpens(s, n, 1);
    }
    if steps: seq<Step>, step: Step :| NoConnect(steps) && !step.CallConnect? && Builds(s, steps, step, n) {
      AtMostOneLateOpen(s, steps + [step], n);
      assert (steps + [step])[..|steps|] == steps;
      assert Attempts(s, steps + [step], n) >= 1;
    }
  }

  ghost predicate NoneCanOpen(s: System) {
    forall n | 0 <= n < |s.threads| :: !CanStillOpen(s, s.threads[n])
  }

  lemma StepKeepsNoneCanOpen(s: System, step: Step)
    requires Quiet(s) && NoneCanOpen(s) && !step.CallConnect?
    ensures NoneCanOpen(Next(s, step))
  {
    var s' := Next(s, step);
    hide Next, Quiet;
    forall n | 0 <= n < |s'.threads| ensures !CanStillOpen(s', s'.threads[n]) {
      if n < |s.threads| {
        ThreadChanges(s, step, n);
        if s.threads[n].Supervisor? {
          TurnsRunOut(s, step, n);
        }
      } else {
        NewThreads(s, step, n);
      }
    }
  }

  lemma NothingIsBuilt(s: System, step: Step)
    requires Quiet(s) && NoneCanOpen(s) && !step.CallConnect?
    ensures Next(s, step).link.built == s.link.built
  {
    hide Failed, Succeeded, ClearedAccount, SupervisorAlive;
  }

  lemma {:induction false} StaysUnbuilt(s: System, steps: seq<Step>)
    requires Quiet(s) && NoneCanOpen(s) && NoConnect(steps)
    ensures var s' := Run(s, steps); Quiet(s') && NoneCanOpen(s') && s'.link.built == s.link.built
  {
    if steps != [] {
      var front := steps[..|steps| - 1];
      StaysUnbuilt(s, front);
      RunStep(s, steps);
      hide Run, Next, Quiet, NoneCanOpen;
      StepKeepsQuiet(Run(s, front), steps[|front|]);
      StepKeepsNoneCanOpen(Run(s, front), steps[|front|]);
      NothingIsBuilt(Run(s, front), steps[|front|]);
    }
  }

  /**
   No interface is ever built after a disconnect, whatever happens short of a new connect,
   exactly when no supervisor was caught past its guards.
   */
  lemma NoLateOpenExactly(s: System)
    requires Quiet(s)
    ensures (forall steps | NoConnect(steps) :: Run(s, steps).link.built == s.link.built) <==> NoneCanOpen(s)
  {
    hide Run, Next, Quiet, CanStillOpen, IsAttempt;
    if NoneCanOpen(s) {
      forall steps | NoConnect(steps) ensures Run(s, steps).link.built == s.link.built {
        StaysUnbuilt(s, steps);
      }
    } else {
      var n :| 0 <= n < |s.threads| && CanStillOpen(s, s.threads[n]);
      var steps, step := StillOpens(s, n, 1);
      RunStep(s, steps + [step]);
      assert (steps + [step])[..|steps|] == steps;
      assert NoConnect(steps + [step]);
      assert Run(s, steps + [step]).link.built != Run(s, steps).link.built;
    }
  }

  lemma {:induction false} RunAppend(s: System, steps: seq<Step>, more: seq<Step>)
    ensures Run(s, steps + more) == Run(Run(s, steps), more)
  {
    if more == [] {
      assert steps + more == steps;
    } else {
      RunAppend(s, steps, more[..|more| - 1]);
      RunStep(s, steps + more);
      RunStep(Run(s, steps), more);
      hide Run, Next;
      assert (steps + more)[..|steps + more| - 1] == steps + more[..|more| - 1];
    }
  }

  lemma RunThree(s: System, x: Step, y: Step, z: Step)
    ensures Run(s, [x, y, z]) == Next(Next(Next(s, x), y), z)
  {
    hide Next;
    assert [x][..0] == [] && [x, y][..1] == [x] && [x, y, z][..2] == [x, y];
    assert Run(s, [x]) == Next(s, x);
    assert Run(s, [x, y]) == Next(Next(s, x), y);
  }

  /** A client's connect, up to the moment its first attempt has been refused. */
  lemma FirstAttemptRefused()
    ensures var client := Go(0, Refused, 9);
      var s := Run(Run(START, [CallConnect, client, client]), [client, client, client]);
      s.threads == [Connector(CheckSupervisor)] && s.supervisor.None? && s.want && !s.stop
      && s.link.current.None?
  {
    var client := Go(0, Refused, 9);
    RunThree(START, CallConnect, client, client);
    RunThree(Run(START, [CallConnect, client, client]), client, client, client);
    hide Run;
  }

  /** It starts a supervisor, which gets past its guards. */
  lemma SupervisorPastGuards(s: System)
    requires s.threads == [Connector(CheckSupervisor)] && s.supervisor.None? && s.want && !s.stop
    requires s.link.current.None?
    ensures var client, supervisor := Go(0, Refused, 9), Go(1, Built, 9);
      var s' := Run(Run(s, [client, client, client]), [supervisor, supervisor, supervisor]);
      s'.threads == [Connector(ConnectDone), Supervisor(Reopen, 2, [])]
  {
    var client, supervisor := Go(0, Refused, 9), Go(1, Built, 9);
    RunThree(s, client, client, client);
    RunThree(Run(s, [client, client, client]), supervisor, supervisor, supervisor);
    SupervisorStarts(s);
    hide Run, ConnectStep, DisconnectStep;
  }

  lemma SupervisorStarts(s: System)
    requires s.threads == [Connector(CheckSupervisor)] && s.supervisor.None? && s.want && !s.stop
    requires s.link.current.None?
    ensures var client, supervisor := Go(0, Refused, 9), Go(1, Built, 9);
      var s' := Next(Next(Next(s, client), client), client);
      && s'.threads == [Connector(ConnectDone), Supervisor(GuardWant, 2, [])]
      && s'.want && !s'.stop && s'.link.current.None?
  {
  }

  /** A disconnect runs to its end, and the supervisor opens the link. */
  lemma OpensAfterDisconnect(s: System)
    requires s.threads == [Connector(ConnectDone), Supervisor(Reopen, 2, [])]
    ensures var closer, supervisor := Go(2, Refused, 9), Go(1, Built, 9);
      var closed := Next(Run(s, [CallDisconnect, closer, closer]), closer);
      var s' := Next(closed, supervisor);
      && closed.threads == [Connector(ConnectDone), Supervisor(Reopen, 2, []), Disconnector(DisconnectDone)]
      && Quiet(closed) && closed.stop
      && closed.link.current.None?
      && s'.link.current.Some? && Quiet(s')
  {
    var closer := Go(2, Refused, 9);
    RunThree(s, CallDisconnect, closer, closer);
    hide Run;
  }

  /** One late open does happen: a supervisor past its guards opens the link after a
      disconnect has run to its end. */
  lemma LateOpenHappens() returns (steps: seq<Step>, open: Step)
    ensures var closed := Run(START, steps);
      && Quiet(closed) && closed.stop && closed.link.current.None?
      && Next(closed, open).link.current.Some?
  {
    var client, supervisor, closer := Go(0, Refused, 9), Go(1, Built, 9), Go(2, Refused, 9);
    hide Run, Next, Quiet;
    FirstAttemptRefused();
    steps := [CallConnect, client, client] + [client, client, client];
    RunAppend(START, [CallConnect, client, client], [client, client, client]);
    SupervisorPastGuards(Run(START, steps));
    RunAppend(START, steps, [client, client, client]);
    steps := steps + [client, client, client];
    RunAppend(START, steps, [supervisor, supervisor, supervisor]);
    steps := steps + [supervisor, supervisor, supervisor];
    OpensAfterDisconnect(Run(START, steps));
    RunAppend(START, steps, [CallDisconnect, closer, closer]);
    steps := steps + [CallDisconnect, closer, closer];
    RunStep(START, steps + [closer]);
    assert (steps + [closer])[..|steps|] == steps;
    steps := steps + [closer];
    open := supervisor;
  }
}
