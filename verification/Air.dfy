/**
 Concurrent senders: any number of tool calls and replies, in threads of their own, share
 one limiter and one radio. A packet's admission and what becomes of it are separate steps,
 and anything may happen in between.
 */
module Air {
  import opened Prelude
  import opened CodePoints
  import opened Window
  import opened Policy
  import opened Channels
  import opened RateLimit
  import opened Bridge
  import opened Outbound

  /** Waiting: a packet is admitted, and its fate is still to come. Text and interface have
      been read by then, so it is known what that will be. */
  datatype Stage = Ready | Waiting(fate: Fate) | Succeeded | Failed

  /** What one sender puts out in order: the parts of a reply, or one tool call's text. next
      counts the sendData calls made for it. A tool call can have itself charged as a
      continuation; a reply does so from its second part on. */
  datatype Job = Job(args: Args, texts: seq<CodeText>, continuation: bool, timeoutReads: bool, next: nat, stage: Stage)

  datatype Entry = Entry(job: nat, fate: Fate)

  datatype System = System(jobs: seq<Job>, h: seq<Admission>, log: seq<Entry>)

  const IDLE := System([], [], [])

  datatype Step =
    | Start(args: Args, texts: seq<CodeText>, continuation: bool, timeoutReads: bool)
    | Ask(job: nat, world: World, cfg: LimitConfig)
    | Resolve(job: nat, delivery: Delivery)

  ghost predicate Enabled(s: System, step: Step) {
    match step
    case Start(_, _, _, _) => true
    case Ask(j, _, _) => j < |s.jobs| && s.jobs[j].stage.Ready? && s.jobs[j].next < |s.jobs[j].texts|
    case Resolve(j, _) => j < |s.jobs| && s.jobs[j].stage.Waiting?
  }

  /** The call of the tool for a job's next text. */
  function NextMessage(job: Job): Message
    requires job.next < |job.texts|
  {
    Message(job.texts[job.next], job.args, job.continuation || job.next > 0, job.timeoutReads)
  }

  ghost function NextTarget(casing: Casing, h: seq<Admission>, job: Job, world: World, cfg: LimitConfig): Option<Target>
    requires job.next < |job.texts|
  {
    AdmittedTo(casing, NextMessage(job), world, cfg, h)
  }

  ghost function Asked(casing: Casing, h: seq<Admission>, job: Job, world: World, cfg: LimitConfig): Job
    requires job.next < |job.texts|
  {
    match NextTarget(casing, h, job, world, cfg)
    case Some(t) => job.(stage := Waiting(FateOf(job.texts[job.next], t, world.iface)))
    case None => job.(stage := Failed)
  }

  /** A sender goes on unless the answer has an error, as that to a lost packet does. */
  function Resolved(job: Job, fate: Fate, delivery: Delivery): Job {
    if fate.Lost? then job.(stage := Failed)
    else
      job.(next := job.next + 1,
           stage := if !TakenForSent(delivery) then Failed
                    else if job.next + 1 >= |job.texts| then Succeeded else Ready)
  }

  ghost function Next(casing: Casing, s: System, step: Step): System
    requires Enabled(s, step)
  {
    match step
    case Start(args, texts, continuation, timeoutReads) =>
      s.(jobs := s.jobs + [Begun(args, texts, continuation, timeoutReads)])
    case Ask(j, world, cfg) =>
      var job := s.jobs[j];
      var h := match NextTarget(casing, s.h, job, world, cfg)
        case Some(t) => Charge(s.h, CallFor(t, NextMessage(job).continuation), world.now, Admitted)
        case None => s.h;
      s.(jobs := s.jobs[j := Asked(casing, s.h, job, world, cfg)], h := h)
    case Resolve(j, delivery) =>
      var fate := s.jobs[j].stage.fate;
      s.(jobs := s.jobs[j := Resolved(s.jobs[j], fate, delivery)], log := s.log + [Entry(j, fate)])
  }

  function Begun(args: Args, texts: seq<CodeText>, continuation: bool, timeoutReads: bool): Job {
    Job(args, texts, continuation, timeoutReads, 0, if texts == [] then Succeeded else Ready)
  }

  /** The system after these steps; one that nobody is at does nothing. */
  ghost function After(casing: Casing, steps: seq<Step>): System {
    if steps == [] then IDLE
    else
      var s, step := After(casing, steps[..|steps| - 1]), steps[|steps| - 1];
      if Enabled(s, step) then Next(casing, s, step) else s
  }

  // ---------------------------------------------------------------------
  // Every admission is one packet, called or lost
  // ---------------------------------------------------------------------

  /** The destination is charged to this bucket; all are charged to the shared one. */
  predicate Under(t: Target, key: string) {
    key == GLOBAL || OwnBucket(t) == key
  }

  /** Whether a fate is counted under a key: all of them, the calls, or the losses. */
  datatype Kind = AnyFate | OnlyCalled | OnlyLost

  function Weight(fate: Fate, key: string, kind: Kind): nat {
    if Under(TargetOf(fate), key) && (kind.OnlyCalled? ==> fate.Called?) && (kind.OnlyLost? ==> fate.Lost?)
    then 1 else 0
  }

  /** Fates that came, of one kind and under one key. */
  function Came(log: seq<Entry>, key: string, kind: Kind): nat {
    if log == [] then 0
    else Came(log[..|log| - 1], key, kind) + Weight(log[|log| - 1].fate, key, kind)
  }

  function StageWeight(stage: Stage, key: string, kind: Kind): nat {
    if stage.Waiting? then Weight(stage.fate, key, kind) else 0
  }

  /** Fates still to come. */
  function ToCome(jobs: seq<Job>, key: string, kind: Kind): nat {
    if jobs == [] then 0
    else ToCome(jobs[..|jobs| - 1], key, kind) + StageWeight(jobs[|jobs| - 1].stage, key, kind)
  }

  ghost function SentUnder(s: System, key: string): nat {
    Came(s.log, key, OnlyCalled)
  }

  ghost function LostUnder(s: System, key: string): nat {
    Came(s.log, key, OnlyLost)
  }

  ghost function WaitingUnder(s: System, key: string): nat {
    ToCome(s.jobs, key, AnyFate)
  }

  lemma {:induction false} ToComeUpdated(jobs: seq<Job>, j: nat, job: Job, key: string, kind: Kind)
    requires j < |jobs|
    ensures ToCome(jobs[j := job], key, kind)
      == ToCome(jobs, key, kind) - StageWeight(jobs[j].stage, key, kind) + StageWeight(job.stage, key, kind)
  {
    hide StageWeight;
    var n := |jobs| - 1;
    if j == n {
      assert jobs[j := job][..n] == jobs[..n];
    } else {
      assert jobs[j := job][..n] == jobs[..n][j := job];
      ToComeUpdated(jobs[..n], j, job, key, kind);
    }
  }

  lemma ChargedUnder(h: seq<Admission>, t: Target, continuation: bool, now: real, key: string)
    ensures |Times(Charge(h, CallFor(t, continuation), now, Admitted), key)|
      == |Times(h, key)| + (if Under(t, key) then 1 else 0)
  {
    ChargedToOwnBucket(t, continuation);
    hide Bucket, OwnBucket, Times;
    var a := Admission(OwnBucket(t), now, continuation);
    assert Charge(h, CallFor(t, continuation), now, Admitted) == h + [a];
    TimesStep(h, a, key);
  }

  lemma OneMoreJob(jobs: seq<Job>, job: Job, key: string, kind: Kind)
    ensures ToCome(jobs + [job], key, kind) == ToCome(jobs, key, kind) + StageWeight(job.stage, key, kind)
  {
    assert (jobs + [job])[..|jobs|] == jobs;
  }

  lemma OneMoreCame(log: seq<Entry>, e: Entry, key: string, kind: Kind)
    ensures Came(log + [e], key, kind) == Came(log, key, kind) + Weight(e.fate, key, kind)
  {
    assert (log + [e])[..|log|] == log;
  }

  /** The fate that an admission in this step leads to, if it makes one. */
  ghost function FateIn(casing: Casing, s: System, step: Step): Option<Fate> {
    if step.Ask? && Enabled(s, step) && Asked(casing, s.h, s.jobs[step.job], step.world, step.cfg).stage.Waiting? then
      Some(Asked(casing, s.h, s.jobs[step.job], step.world, step.cfg).stage.fate)
    else None
  }

  ghost function OptionWeight(fate: Option<Fate>, key: string, kind: Kind): nat {
    if fate.Some? then Weight(fate.value, key, kind) else 0
  }

  /** A step adds a fate to come, or lets one come, and changes no count otherwise. */
  lemma StepCounts(casing: Casing, s: System, step: Step, key: string, kind: Kind)
    requires Enabled(s, step)
    ensures var s' := Next(casing, s, step);
      Came(s'.log, key, kind) + ToCome(s'.jobs, key, kind)
        == Came(s.log, key, kind) + ToCome(s.jobs, key, kind) + OptionWeight(FateIn(casing, s, step), key, kind)
  {
    hide Came, ToCome, Weight, Charge, NextTarget, CallFor, FateOf;
    match step {
      case Start(args, texts, continuation, timeoutReads) =>
        OneMoreJob(s.jobs, Begun(args, texts, continuation, timeoutReads), key, kind);
      case Ask(j, world, cfg) =>
        ToComeUpdated(s.jobs, j, Asked(casing, s.h, s.jobs[j], world, cfg), key, kind);
      case Resolve(j, delivery) =>
        var fate := s.jobs[j].stage.fate;
        ToComeUpdated(s.jobs, j, Resolved(s.jobs[j], fate, delivery), key, kind);
        OneMoreCame(s.log, Entry(j, fate), key, kind);
    }
  }

  /** The limiter's record grows by exactly the admissions that have a fate to come. */
  lemma StepCharges(casing: Casing, s: System, step: Step, key: string)
    requires Enabled(s, step)
    ensures |Times(Next(casing, s, step).h, key)|
      == |Times(s.h, key)| + OptionWeight(FateIn(casing, s, step), key, AnyFate)
  {
    hide Times, Under, Charge, NextTarget, CallFor;
    if step.Ask? {
      var job := s.jobs[step.job];
      var target := NextTarget(casing, s.h, job, step.world, step.cfg);
      if target.Some? {
        ChargedUnder(s.h, target.value, NextMessage(job).continuation, step.world.now, key);
      }
    }
  }

  /** An admission enters the record under the packet's own bucket, at the time it was asked
      for, and nothing else does. */
  lemma RecordIsOwn(casing: Casing, s: System, step: Step)
    requires Enabled(s, step)
    ensures Next(casing, s, step).h ==
      if step.Ask? && NextTarget(casing, s.h, s.jobs[step.job], step.world, step.cfg).Some? then
        var t := NextTarget(casing, s.h, s.jobs[step.job], step.world, step.cfg).value;
        var job := s.jobs[step.job];
        s.h + [Admission(OwnBucket(t), step.world.now, job.continuation || job.next > 0)]
      else s.h
  {
    if step.Ask? && NextTarget(casing, s.h, s.jobs[step.job], step.world, step.cfg).Some? {
      ChargedToOwnBucket(NextTarget(casing, s.h, s.jobs[step.job], step.world, step.cfg).value,
                         NextMessage(s.jobs[step.job]).continuation);
    }
    hide NextTarget, Bucket, OwnBucket, Asked;
  }

  lemma {:induction false} CalledAndLost(log: seq<Entry>, key: string)
    ensures Came(log, key, AnyFate) == Came(log, key, OnlyCalled) + Came(log, key, OnlyLost)
  {
    if log != [] {
      CalledAndLost(log[..|log| - 1], key);
    }
  }

  lemma {:induction false} FatesAreAdmissions(casing: Casing, steps: seq<Step>, key: string)
    ensures var s := After(casing, steps);
      Came(s.log, key, AnyFate) + ToCome(s.jobs, key, AnyFate) == |Times(s.h, key)|
  {
    if steps != [] {
      var s, step := After(casing, steps[..|steps| - 1]), steps[|steps| - 1];
      hide Came, ToCome, Times, Next, FateIn;
      FatesAreAdmissions(casing, steps[..|steps| - 1], key);
      if Enabled(s, step) {
        StepCounts(casing, s, step, key, AnyFate);
        StepCharges(casing, s, step, key);
      }
    } else {
      assert Came([], key, AnyFate) == 0 == ToCome([], key, AnyFate);
    }
  }

  /**
   In every interleaving and for every bucket, the shared one included, the sendData calls
   made, the packets lost and those still on their way are exactly the admissions.
   */
  lemma AdmissionsAreAccountedFor(casing: Casing, steps: seq<Step>, key: string)
    ensures var s := After(casing, steps);
      SentUnder(s, key) + LostUnder(s, key) + WaitingUnder(s, key) == |Times(s.h, key)|
  {
    hide After, Came, ToCome, Times;
    FatesAreAdmissions(casing, steps, key);
    CalledAndLost(After(casing, steps).log, key);
  }

  /** Admissions, in these steps, of a text without a UTF-8 encoding or while the interface
      was lost as it was read. */
  ghost function DoomedUnder(casing: Casing, steps: seq<Step>, key: string): nat {
    if steps == [] then 0
    else
      var front, step := steps[..|steps| - 1], steps[|steps| - 1];
      DoomedUnder(casing, front, key) + (if IsDoomed(casing, After(casing, front), step, key) then 1 else 0)
  }

  ghost predicate IsDoomed(casing: Casing, s: System, step: Step, key: string) {
    && step.Ask? && Enabled(s, step)
    && (var job := s.jobs[step.job];
        var target := NextTarget(casing, s.h, job, step.world, step.cfg);
        && target.Some? && Under(target.value, key)
        && !(Encodable(job.texts[job.next]) && step.world.iface.Up?))
  }

  lemma DoomedIsLost(casing: Casing, s: System, step: Step, key: string)
    ensures OptionWeight(FateIn(casing, s, step), key, OnlyLost) == if IsDoomed(casing, s, step, key) then 1 else 0
  {
    hide NextTarget, Under, Encodable;
  }

  lemma {:induction false} LossesAreForeseen(casing: Casing, steps: seq<Step>, key: string)
    ensures var s := After(casing, steps);
      LostUnder(s, key) + ToCome(s.jobs, key, OnlyLost) == DoomedUnder(casing, steps, key)
  {
    if steps != [] {
      var s, step := After(casing, steps[..|steps| - 1]), steps[|steps| - 1];
      hide Came, ToCome, Next, FateIn, IsDoomed;
      LossesAreForeseen(casing, steps[..|steps| - 1], key);
      DoomedIsLost(casing, s, step, key);
      if Enabled(s, step) {
        StepCounts(casing, s, step, key, OnlyLost);
      } else {
        NotDoomed(casing, s, step, key);
      }
    } else {
      assert Came([], key, OnlyLost) == 0 == ToCome([], key, OnlyLost);
    }
  }

  lemma NotDoomed(casing: Casing, s: System, step: Step, key: string)
    requires !Enabled(s, step)
    ensures !IsDoomed(casing, s, step, key)
  {
  }

  ghost predicate AtRest(jobs: seq<Job>) {
    forall j | 0 <= j < |jobs| :: !jobs[j].stage.Waiting?
  }

  lemma {:induction false} NothingToCome(jobs: seq<Job>, key: string, kind: Kind)
    requires AtRest(jobs)
    ensures ToCome(jobs, key, kind) == 0
  {
    if jobs != [] {
      NothingToCome(jobs[..|jobs| - 1], key, kind);
    }
  }

  /**
   With no packet on its way, sendData was called once for every admission of a bucket,
   exactly when every packet admitted to it had a text with a UTF-8 encoding and an
   interface that stayed while it was read; the others are the difference.
   */
  lemma AtRestCallsAreAdmissions(casing: Casing, steps: seq<Step>, key: string)
    requires AtRest(After(casing, steps).jobs)
    ensures var s := After(casing, steps);
      && SentUnder(s, key) + DoomedUnder(casing, steps, key) == |Times(s.h, key)|
      && (SentUnder(s, key) == |Times(s.h, key)| <==> DoomedUnder(casing, steps, key) == 0)
  {
    hide After, Came, ToCome, Times, DoomedUnder;
    AdmissionsAreAccountedFor(casing, steps, key);
    LossesAreForeseen(casing, steps, key);
    NothingToCome(After(casing, steps).jobs, key, AnyFate);
    NothingToCome(After(casing, steps).jobs, key, OnlyLost);
  }

  /** A direct message whose text is one surrogate, to a radio that is up: its token is spent
      and nothing is sent. */
  lemma SurrogateSpendsAToken(casing: Casing, unit: SurrogateUnit, world: World, cfg: LimitConfig)
    requires Positive(cfg) && world.iface.Up?
    ensures var args := Args(Text("!a"), Bool(true), Null, Null);
      var s := After(casing, [Start(args, [[Surrogate(unit)]], false, true), Ask(0, world, cfg), Resolve(0, Accepted)]);
      && |s.h| == 1 && s.log == [Entry(0, Lost(Target(Some("!a"), 0, true)))]
      && |s.jobs| == 1 && s.jobs[0].stage == Failed
  {
    var args := Args(Text("!a"), Bool(true), Null, Null);
    var text := [Surrogate(unit)];
    var start, ask, resolve := Start(args, [text], false, true), Ask(0, world, cfg), Resolve(0, Accepted);
    var t := Target(Some("!a"), 0, true);
    var job := Job(args, [text], false, true, 0, Ready);
    SurrogateIsAdmitted(casing, text, world, cfg);
    hide NextTarget, Gate, CallFor, Charge;
    assert [start, ask, resolve][..2] == [start, ask] && [start, ask][..1] == [start] && [start][..0] == [];
    assert After(casing, [start]) == System([job], [], []);
    assert !Encodable(text);
    var waiting := job.(stage := Waiting(Lost(t)));
    assert Asked(casing, [], job, world, cfg) == waiting;
    assert After(casing, [start, ask]) == System([waiting], Charge([], CallFor(t, false), world.now, Admitted), []);
    assert |Charge([], CallFor(t, false), world.now, Admitted)| == 1 by {
      ChargeAddsOne(CallFor(t, false), world.now);
    }
  }

  lemma ChargeAddsOne(call: Call, now: real)
    ensures |Charge([], call, now, Admitted)| == 1
  {
  }

  lemma SurrogateIsAdmitted(casing: Casing, text: CodeText, world: World, cfg: LimitConfig)
    requires |text| == 1 && text[0].Surrogate? && Positive(cfg) && world.iface.Up?
    ensures var args := Args(Text("!a"), Bool(true), Null, Null);
      NextTarget(casing, [], Job(args, [text], false, true, 0, Ready), world, cfg) == Some(Target(Some("!a"), 0, true))
  {
    assert StripText(text) == text;
    assert Times([], GLOBAL) == [];
    hide StripText, Bucket;
  }

  // ---------------------------------------------------------------------
  // The limiter's bounds reach every interleaving
  // ---------------------------------------------------------------------

  /** The limiter requests that were admitted during these steps. */
  ghost function Requests(casing: Casing, steps: seq<Step>): seq<Request> {
    if steps == [] then []
    else
      var front, step := steps[..|steps| - 1], steps[|steps| - 1];
      var s := After(casing, front);
      if step.Ask? && Enabled(s, step) then
        var job := s.jobs[step.job];
        match NextTarget(casing, s.h, job, step.world, step.cfg)
        case Some(t) =>
          Requests(casing, front) + [Request(CallFor(t, NextMessage(job).continuation), step.world.now, step.cfg)]
        case None => Requests(casing, front)
      else Requests(casing, front)
  }

  /** Whatever the interleaving, the limiter's record is that of one run of requests. */
  lemma {:induction false} RecordOfTheRun(casing: Casing, steps: seq<Step>)
    ensures After(casing, steps).h == Record(Requests(casing, steps))
  {
    if steps != [] {
      var front, step := steps[..|steps| - 1], steps[|steps| - 1];
      RecordOfTheRun(casing, front);
      var s := After(casing, front);
      if step.Ask? && Enabled(s, step) {
        var job := s.jobs[step.job];
        var target := NextTarget(casing, s.h, job, step.world, step.cfg);
        if target.Some? {
          TargetIsAdmitted(casing, s.h, job, step.world, step.cfg);
          hide NextTarget, NextMessage, Gate, CallFor, Record, Asked, FateOf;
          RecordStep(Requests(casing, front),
                     Request(CallFor(target.value, NextMessage(job).continuation), step.world.now, step.cfg));
        }
      }
    }
  }

  lemma TargetIsAdmitted(casing: Casing, h: seq<Admission>, job: Job, world: World, cfg: LimitConfig)
    requires job.next < |job.texts| && NextTarget(casing, h, job, world, cfg).Some?
    ensures var t := NextTarget(casing, h, job, world, cfg).value;
      Gate(cfg, h, CallFor(t, NextMessage(job).continuation), world.now) == Admitted
  {
    hide Gate, ValidateToolSend, CallFor, StripText;
  }

  /** In every interleaving, an interval no longer than n windows admits at most n * limit
      packets of one bucket. */
  lemma AirtimeIsBounded(casing: Casing, steps: seq<Step>, key: string, limit: nat, lo: real, hi: real, n: nat)
    requires NondecreasingClock(Requests(casing, steps)) && LimitedBy(Requests(casing, steps), key, limit)
    requires hi <= lo + Windows(n)
    ensures CountIn(Times(After(casing, steps).h, key), lo, hi) <= n * limit
  {
    RecordOfTheRun(casing, steps);
    RunsStayWithinLimits(Requests(casing, steps), key, limit, lo, hi, n);
  }

  /** In every interleaving, an admitted packet that is not charged as a continuation follows
      every earlier one to its destination by at least the cooldown. */
  lemma AirTurnsAreSpaced(casing: Casing, steps: seq<Step>, cooldown: real, i: nat, j: nat)
    requires NondecreasingClock(Requests(casing, steps))
    requires forall r | r in Requests(casing, steps) :: r.cfg.cooldown >= cooldown
    requires i < j < |After(casing, steps).h|
    requires var h := After(casing, steps).h; h[i].bucket == h[j].bucket && !h[j].continuation
    ensures var h := After(casing, steps).h; h[j].at - h[i].at >= cooldown
  {
    RecordOfTheRun(casing, steps);
    hide After, Requests, Record;
    RateLimit.TurnsAreSpaced(Requests(casing, steps), cooldown, i, j);
  }

  // ---------------------------------------------------------------------
  // What a sender puts on the air
  // ---------------------------------------------------------------------

  /** The packets sendData was called with for one sender, in order. */
  function SentBy(log: seq<Entry>, j: nat): seq<Packet> {
    if log == [] then []
    else
      var front, last := SentBy(log[..|log| - 1], j), log[|log| - 1];
      front + if last.job == j then Packets(last.fate) else []
  }

  function Packets(fate: Fate): seq<Packet> {
    if fate.Called? then [fate.packet] else []
  }

  /** The packet carries this text, to what the policy lets the arguments address. */
  ghost predicate Carries(casing: Casing, args: Args, text: CodeText, p: Packet) {
    && StripText(text) == Codes(p.payload) != []
    && exists table, spec :: Authorizes(casing, args, table, spec, p)
  }

  ghost predicate Authorizes(casing: Casing, args: Args, table: seq<Row>, spec: Spec, p: Packet) {
    ValidateToolSend(casing, args, table, spec) == Result.Ok(Target(p.dest, p.channel, p.pki))
  }

  ghost predicate CarriesAll(casing: Casing, job: Job, packets: seq<Packet>) {
    && |packets| == job.next <= |job.texts|
    && forall k | 0 <= k < |packets| :: Carries(casing, job.args, job.texts[k], packets[k])
  }

  /** What was sent for a job is its first texts, and all of them once it has succeeded. */
  ghost predicate InStep(casing: Casing, job: Job, packets: seq<Packet>) {
    && CarriesAll(casing, job, packets)
    && match job.stage
       case Ready => job.next < |job.texts|
       case Waiting(fate) =>
         job.next < |job.texts| && (fate.Called? ==> Carries(casing, job.args, job.texts[job.next], fate.packet))
       case Succeeded => job.next == |job.texts|
       case Failed => true
  }

  lemma CalledCarries(casing: Casing, h: seq<Admission>, job: Job, world: World, cfg: LimitConfig)
    requires job.next < |job.texts|
    ensures var stage := Asked(casing, h, job, world, cfg).stage;
      stage.Waiting? && stage.fate.Called? ==> Carries(casing, job.args, job.texts[job.next], stage.fate.packet)
  {
    var text := job.texts[job.next];
    StrippedEncodable(text);
    if Encodable(text) {
      CodesOfChars(StripText(text));
    }
    hide ValidateToolSend, Gate, CallFor, StripText, Encodable, Codes, Chars;
    var stage := Asked(casing, h, job, world, cfg).stage;
    if stage.Waiting? && stage.fate.Called? {
      assert Authorizes(casing, job.args, world.table, world.spec, stage.fate.packet);
    }
  }

  lemma CodesOfChars(text: CodeText)
    requires Encodable(text)
    ensures Codes(Chars(text)) == text
  {
  }

  lemma AskKeepsInStep(casing: Casing, h: seq<Admission>, job: Job, world: World, cfg: LimitConfig,
                       packets: seq<Packet>)
    requires InStep(casing, job, packets) && job.stage.Ready?
    ensures InStep(casing, Asked(casing, h, job, world, cfg), packets)
  {
    CalledCarries(casing, h, job, world, cfg);
    hide NextTarget, FateOf, Carries;
  }

  lemma ResolveKeepsInStep(casing: Casing, job: Job, delivery: Delivery, packets: seq<Packet>)
    requires InStep(casing, job, packets) && job.stage.Waiting?
    ensures InStep(casing, Resolved(job, job.stage.fate, delivery), packets + Packets(job.stage.fate))
  {
    hide Carries;
  }

  lemma OneMoreSentBy(log: seq<Entry>, e: Entry, j: nat)
    ensures SentBy(log + [e], j) == SentBy(log, j) + (if e.job == j then Packets(e.fate) else [])
  {
    assert (log + [e])[..|log|] == log;
  }

  lemma StepKeepsInStep(casing: Casing, s: System, step: Step, j: nat)
    requires Enabled(s, step) && j < |Next(casing, s, step).jobs|
    requires j < |s.jobs| ==> InStep(casing, s.jobs[j], SentBy(s.log, j))
    requires j >= |s.jobs| ==> SentBy(s.log, j) == []
    ensures var s' := Next(casing, s, step); InStep(casing, s'.jobs[j], SentBy(s'.log, j))
  {
    match step {
      case Start(_, _, _, _) =>
        hide SentBy, Carries;
      case Ask(n, world, cfg) =>
        hide InStep, SentBy, Asked, NextTarget, Charge;
        if n == j {
          AskKeepsInStep(casing, s.h, s.jobs[j], world, cfg, SentBy(s.log, j));
        }
      case Resolve(n, delivery) =>
        hide InStep, SentBy, Resolved, Packets;
        OneMoreSentBy(s.log, Entry(n, s.jobs[n].stage.fate), j);
        if n == j {
          ResolveKeepsInStep(casing, s.jobs[j], delivery, SentBy(s.log, j));
        }
    }
  }

  /** Only senders that exist have sent anything. */
  lemma {:induction false} SendersExist(casing: Casing, steps: seq<Step>, j: nat)
    requires j >= |After(casing, steps).jobs|
    ensures SentBy(After(casing, steps).log, j) == []
  {
    if steps != [] {
      var s, step := After(casing, steps[..|steps| - 1]), steps[|steps| - 1];
      hide NextTarget, Asked, Resolved, Charge, Packets;
      SendersExist(casing, steps[..|steps| - 1], j);
      if step.Resolve? && Enabled(s, step) {
        OneMoreSentBy(s.log, Entry(step.job, s.jobs[step.job].stage.fate), j);
      }
    }
  }

  /**
   In every interleaving, the packets sent for a sender carry its first texts in order,
   each to a destination the policy authorized for it; success means that all went out.
   */
  lemma {:induction false} SendersStayInStep(casing: Casing, steps: seq<Step>, j: nat)
    requires j < |After(casing, steps).jobs|
    ensures var s := After(casing, steps); InStep(casing, s.jobs[j], SentBy(s.log, j))
  {
    if steps != [] {
      var front, step := steps[..|steps| - 1], steps[|steps| - 1];
      var s := After(casing, front);
      hide InStep, SentBy, Next;
      if j < |s.jobs| {
        SendersStayInStep(casing, front, j);
      } else {
        SendersExist(casing, front, j);
      }
      if Enabled(s, step) {
        StepKeepsInStep(casing, s, step, j);
      }
    }
  }

  // ---------------------------------------------------------------------
  // When a sender gives up
  // ---------------------------------------------------------------------

  /** In this step a text of the job is turned away, or lost, or the radio does not take it. */
  ghost predicate Blames(casing: Casing, s: System, step: Step, j: nat) {
    && Enabled(s, step)
    && match step
       case Start(_, _, _, _) => false
       case Ask(n, world, cfg) => n == j && NextTarget(casing, s.h, s.jobs[n], world, cfg).None?
       case Resolve(n, delivery) =>
         n == j && (s.jobs[n].stage.fate.Lost? || !(delivery == Accepted || delivery == RuntimeFailure("")))
  }

  ghost predicate Blamed(casing: Casing, steps: seq<Step>, j: nat) {
    steps != [] &&
    var front := steps[..|steps| - 1];
    Blamed(casing, front, j) || Blames(casing, After(casing, front), steps[|front|], j)
  }

  lemma StepFails(casing: Casing, s: System, step: Step, j: nat)
    requires Enabled(s, step)
    ensures |s.jobs| <= |Next(casing, s, step).jobs|
    ensures j < |s.jobs| ==>
      (Next(casing, s, step).jobs[j].stage.Failed? <==> s.jobs[j].stage.Failed? || Blames(casing, s, step, j))
    ensures |s.jobs| <= j < |Next(casing, s, step).jobs| ==> !Next(casing, s, step).jobs[j].stage.Failed?
    ensures Blames(casing, s, step, j) ==> j < |s.jobs|
  {
    hide NextTarget, Charge, FateOf;
  }

  lemma {:induction false} OnlySendersAreBlamed(casing: Casing, steps: seq<Step>, j: nat)
    requires Blamed(casing, steps, j)
    ensures j < |After(casing, steps).jobs|
  {
    var front, step := steps[..|steps| - 1], steps[|steps| - 1];
    var s := After(casing, front);
    hide Next, Blames, Enabled;
    if Blamed(casing, front, j) {
      OnlySendersAreBlamed(casing, front, j);
    }
    if Enabled(s, step) {
      StepFails(casing, s, step, j);
    } else {
      BlamesIsEnabled(casing, s, step, j);
    }
  }

  lemma BlamesIsEnabled(casing: Casing, s: System, step: Step, j: nat)
    ensures Blames(casing, s, step, j) ==> Enabled(s, step)
  {
  }

  /**
   In every interleaving, a sender has failed exactly when one of its texts was turned away,
   or lost, or not taken by the radio; and it has succeeded exactly when none was and all
   its texts went out.
   */
  lemma {:induction false} FailuresHaveCauses(casing: Casing, steps: seq<Step>, j: nat)
    requires j < |After(casing, steps).jobs|
    ensures var job := After(casing, steps).jobs[j];
      && (job.stage.Failed? <==> Blamed(casing, steps, j))
      && (job.stage.Succeeded? <==> !Blamed(casing, steps, j) && job.next == |job.texts|)
  {
    SendersStayInStep(casing, steps, j);
    FailedIsBlamed(casing, steps, j);
    hide After, SentBy, Carries, Blamed;
  }

  lemma {:induction false} FailedIsBlamed(casing: Casing, steps: seq<Step>, j: nat)
    requires j < |After(casing, steps).jobs|
    ensures After(casing, steps).jobs[j].stage.Failed? <==> Blamed(casing, steps, j)
  {
    if steps != [] {
      var front, step := steps[..|steps| - 1], steps[|steps| - 1];
      var s := After(casing, front);
      hide Next, Blames, Enabled;
      BlamesIsEnabled(casing, s, step, j);
      if j < |s.jobs| {
        FailedIsBlamed(casing, front, j);
      } else if Blamed(casing, front, j) {
        OnlySendersAreBlamed(casing, front, j);
      }
      if Enabled(s, step) {
        StepFails(casing, s, step, j);
      }
    }
  }

  /** The job is a reply with these parts. */
  ghost predicate IsReply(job: Job, target: Destination, parts: seq<string>) {
    && IsReplyTarget(target) && job.args == Arguments(target)
    && |job.texts| == |parts|
    && forall i | 0 <= i < |parts| :: IsPart(parts[i]) && job.texts[i] == Codes(parts[i])
  }

  /** A reply's packets are its first parts, unchanged, each to the reply's own target. */
  lemma RepliesGoOutAsPrefixes(casing: Casing, steps: seq<Step>, j: nat, target: Destination,
                               parts: seq<string>, k: nat)
    requires j < |After(casing, steps).jobs| && IsReply(After(casing, steps).jobs[j], target, parts)
    requires k < |SentBy(After(casing, steps).log, j)|
    ensures k < |parts|
    ensures SentBy(After(casing, steps).log, j)[k] == Packet(parts[k], target.dest, target.channel, target.pki)
  {
    SendersStayInStep(casing, steps, j);
    var s := After(casing, steps);
    var p := SentBy(s.log, j)[k];
    StripOfCodes(parts[k]);
    assert Chars(Codes(p.payload)) == p.payload && Chars(Codes(parts[k])) == parts[k];
    hide After, SentBy, ValidateToolSend, IsReplyTarget, Arguments, Strip, StripText, Codes, Chars;
    var table, spec :| Authorizes(casing, s.jobs[j].args, table, spec, p);
    AuthorizedIsTarget(casing, target, table, spec);
  }
}
