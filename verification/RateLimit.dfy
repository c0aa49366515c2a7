/**
 The process-wide transmit limiter: sliding-window packet buckets plus a
 per-destination cooldown. The class prunes its buckets; `Gate` is the reference
 that decides from the whole record of admitted packets.
 */
module RateLimit {
  import opened Prelude
  import opened Window

  datatype LimitConfig = LimitConfig(maxSends: int, maxChannel: int, maxDm: int, cooldown: real)

  datatype Scope = CooldownScope | GlobalScope | DmScope | ChannelScope

  /** A refusal carries the exact wait; callers are shown RetryAfter. IndexFault is
      the IndexError a limit below one can provoke. */
  datatype Outcome = Admitted | Refused(scope: Scope, wait: real) | IndexFault {
    function RetryAfter(): (shown: real)
      requires Refused?
      ensures -0.0005 <= shown - wait <= 0.0005
    {
      Round3(wait)
    }
  }

  datatype Call = Call(dest: Option<string>, channel: Option<int>, continuation: bool)

  datatype Admission = Admission(bucket: string, at: real, continuation: bool)

  const GLOBAL := "global"

  /** The fixed limits are usable: from_env can still truncate 0.5 to 0. */
  predicate Positive(cfg: LimitConfig) {
    cfg.maxSends >= 1 && cfg.maxChannel >= 1 && cfg.maxDm >= 1
  }

  predicate IsDm(call: Call) {
    call.dest.Some? && call.dest.value != ""
  }

  function ChannelOf(call: Call): int {
    if call.channel.Some? then call.channel.value else 0
  }

  /** The bucket key and the cooldown key of one destination: they are the same text. */
  function Bucket(call: Call): (key: string)
    ensures key != GLOBAL
  {
    var key := if IsDm(call) then "dm:" + call.dest.value else "ch:" + Decimal(ChannelOf(call));
    assert key[0] != GLOBAL[0];
    key
  }

  ghost predicate SameDestination(c: Call, d: Call) {
    if IsDm(c) then IsDm(d) && c.dest == d.dest else !IsDm(d) && ChannelOf(c) == ChannelOf(d)
  }

  /** Keys are injective, and node keys never meet channel keys. */
  lemma BucketsSeparateDestinations(c: Call, d: Call)
    ensures Bucket(c) == Bucket(d) <==> SameDestination(c, d)
  {
    assert Bucket(c)[0] == if IsDm(c) then 'd' else 'c';
    assert Bucket(d)[0] == if IsDm(d) then 'd' else 'c';
    if Bucket(c) == Bucket(d) {
      if IsDm(c) {
        assert c.dest.value == Bucket(c)[3..] == Bucket(d)[3..] == d.dest.value;
      } else {
        assert Decimal(ChannelOf(c)) == Bucket(c)[3..] == Bucket(d)[3..] == Decimal(ChannelOf(d));
        DecimalIsInjective(ChannelOf(c), ChannelOf(d));
      }
    }
  }

  // ---------------------------------------------------------------------
  // Arithmetic of a refusal
  // ---------------------------------------------------------------------

  /** Python's round(x, 3) on exact values: to the nearest thousandth, ties to even. */
  function Round3(x: real): (r: real)
    ensures -0.0005 <= r - x <= 0.0005
  {
    var scaled := x * 1000.0;
    var down := scaled.Floor;
    var rest := scaled - down as real;
    var n := if rest < 0.5 || (rest == 0.5 && down % 2 == 0) then down else down + 1;
    n as real / 1000.0
  }

  /** Seconds until a bucket has room. None is an index outside the list, which a
      limit below one makes possible because stamps[-limit] then counts from the front. */
  function WindowWait(stamps: seq<real>, limit: int, now: real): Option<real> {
    if |stamps| < limit then Some(0.0)
    else
      var i := if limit > 0 then |stamps| - limit else -limit;
      if i < |stamps| then
        var wait := SPAN - (now - stamps[i]);
        Some(if wait < 0.0 then 0.0 else wait)
      else None
  }

  function Refuse(scope: Scope, wait: Option<real>): Outcome {
    match wait
    case None => IndexFault
    case Some(w) => Refused(scope, w)
  }

  function SpecificScope(call: Call): Scope {
    if IsDm(call) then DmScope else ChannelScope
  }

  function SpecificLimit(cfg: LimitConfig, call: Call): int {
    if IsDm(call) then cfg.maxDm else cfg.maxChannel
  }

  // ---------------------------------------------------------------------
  // The reference: decide from every admission there ever was
  // ---------------------------------------------------------------------

  /** Times of all admissions charged to a key; every packet is charged to GLOBAL. */
  function Times(h: seq<Admission>, key: string): (ts: seq<real>) {
    if h == [] then []
    else
      var front := Times(h[..|h| - 1], key);
      if key == GLOBAL || h[|h| - 1].bucket == key then front + [h[|h| - 1].at] else front
  }

  lemma TimesStep(h: seq<Admission>, a: Admission, key: string)
    ensures Times(h + [a], key) ==
      if key == GLOBAL || a.bucket == key then Times(h, key) + [a.at] else Times(h, key)
  {
    assert (h + [a])[..|h|] == h;
  }

  function Gate(cfg: LimitConfig, h: seq<Admission>, call: Call, now: real): Outcome {
    var mine := Times(h, Bucket(call));
    if mine != [] && !call.continuation && now - mine[|mine| - 1] < cfg.cooldown then
      Refuse(CooldownScope, Some(cfg.cooldown - (now - mine[|mine| - 1])))
    else if |Live(Times(h, GLOBAL), now)| >= cfg.maxSends then
      Refuse(GlobalScope, WindowWait(Live(Times(h, GLOBAL), now), cfg.maxSends, now))
    else if |Live(mine, now)| >= SpecificLimit(cfg, call) then
      Refuse(SpecificScope(call), WindowWait(Live(mine, now), SpecificLimit(cfg, call), now))
    else Admitted
  }

  function Charge(h: seq<Admission>, call: Call, now: real, outcome: Outcome): seq<Admission> {
    if outcome == Admitted then h + [Admission(Bucket(call), now, call.continuation)] else h
  }

  ghost predicate Chronological(h: seq<Admission>, clock: real) {
    && (forall i, j | 0 <= i < j < |h| :: h[i].at <= h[j].at)
    && (forall i | 0 <= i < |h| :: h[i].at <= clock)
  }

  lemma {:induction false} TimesOrdered(h: seq<Admission>, key: string, clock: real)
    requires Chronological(h, clock)
    ensures Ordered(Times(h, key))
    ensures forall i | 0 <= i < |Times(h, key)| :: Times(h, key)[i] <= clock
  {
    if h != [] {
      var front := h[..|h| - 1];
      TimesOrdered(front, key, h[|h| - 1].at);
    }
  }

  // ---------------------------------------------------------------------
  // Coupling between the pruned buckets and the full record
  // ---------------------------------------------------------------------

  function Stored(events: map<string, seq<real>>, key: string): seq<real> {
    if key in events then events[key] else []
  }

  /** A bucket is its full record, less stamps that had expired by time clock. */
  ghost predicate BucketAt(events: map<string, seq<real>>, h: seq<Admission>, clock: real, key: string) {
    PrunedFrom(Stored(events, key), Times(h, key), clock)
  }

  ghost predicate Buckets(events: map<string, seq<real>>, h: seq<Admission>, clock: real) {
    forall key: string :: BucketAt(events, h, clock, key)
  }

  /** lastSend holds the newest admission of a destination that has one. */
  ghost predicate NewestAt(lastSend: map<string, real>, h: seq<Admission>, key: string) {
    var full := Times(h, key);
    key != GLOBAL ==>
      if key in lastSend then full != [] && lastSend[key] == full[|full| - 1] else full == []
  }

  ghost predicate Newest(lastSend: map<string, real>, h: seq<Admission>) {
    forall key: string :: NewestAt(lastSend, h, key)
  }

  lemma BucketsAge(events: map<string, seq<real>>, h: seq<Admission>, clock: real, now: real)
    requires Buckets(events, h, clock) && clock <= now
    ensures Buckets(events, h, now)
  {
    forall key: string ensures BucketAt(events, h, now, key) {
      assert BucketAt(events, h, clock, key);
    }
  }

  /** Replacing one bucket by its live part keeps the coupling. */
  lemma BucketsPruned(events: map<string, seq<real>>, h: seq<Admission>, key: string, now: real)
    requires Buckets(events, h, now) && Chronological(h, now)
    ensures Buckets(events[key := Live(Stored(events, key), now)], h, now)
    ensures Live(Stored(events, key), now) == Live(Times(h, key), now)
  {
    hide Live, Times;
    assert BucketAt(events, h, now, key);
    TimesOrdered(h, key, now);
    PruneAgain(Stored(events, key), Times(h, key), now, now);
    PruningIsInvisible(Stored(events, key), Times(h, key), now, now);
    var events' := events[key := Live(Stored(events, key), now)];
    forall k: string ensures BucketAt(events', h, now, k) {
      assert BucketAt(events, h, now, k);
    }
  }

  /** Appending the new stamp to both buckets matches one more entry in the record. */
  lemma BucketsCharged(events: map<string, seq<real>>, h: seq<Admission>, a: Admission)
    requires Buckets(events, h, a.at) && a.bucket != GLOBAL
    ensures var events' := events[GLOBAL := Stored(events, GLOBAL) + [a.at]]
                                 [a.bucket := Stored(events, a.bucket) + [a.at]];
      Buckets(events', h + [a], a.at)
  {
    hide Times;
    var events' := events[GLOBAL := Stored(events, GLOBAL) + [a.at]]
                         [a.bucket := Stored(events, a.bucket) + [a.at]];
    forall k: string ensures BucketAt(events', h + [a], a.at, k) {
      TimesStep(h, a, k);
      var stored, full := Stored(events, k), Times(h, k);
      assert BucketAt(events, h, a.at, k);
      assert (full + [a.at])[|full| - |stored|..] == stored + [a.at];
    }
  }

  lemma NewestCharged(lastSend: map<string, real>, h: seq<Admission>, a: Admission)
    requires Newest(lastSend, h)
    ensures Newest(lastSend[a.bucket := a.at], h + [a])
  {
    var lastSend', h' := lastSend[a.bucket := a.at], h + [a];
    forall k: string ensures NewestAt(lastSend', h', k) {
      TimesStep(h, a, k);
      assert NewestAt(lastSend, h, k);
    }
  }

  // ---------------------------------------------------------------------
  // The limiter
  // ---------------------------------------------------------------------

  class TransmitLimiter {
    const config: Option<LimitConfig>
    var events: map<string, seq<real>>
    var lastSend: map<string, real>
    // Every admission so far, and the last time read from the clock.
    ghost var history: seq<Admission>
    ghost var clock: real

    ghost predicate Valid()
      reads this
    {
      && Chronological(history, clock)
      && Buckets(events, history, clock)
      && Newest(lastSend, history)
    }

    /** The injected limits, or the environment's as read at the time of the call. */
    function Limits(env: LimitConfig): LimitConfig {
      if config.Some? then config.value else env
    }

    constructor (config: Option<LimitConfig>, start: real)
      ensures Valid() && history == [] && clock == start && this.config == config
    {
      this.config := config;
      events := map[];
      lastSend := map[];
      history := [];
      clock := start;
    }

    method Prune(key: string, now: real)
      requires Valid() && clock == now
      modifies this`events
      ensures Valid()
      ensures events == old(events)[key := Live(Times(history, key), now)]
    {
      BucketsPruned(events, history, key, now);
      events := events[key := Live(Stored(events, key), now)];
    }

    /** All gates passed: one stamp in each bucket, and a new last send. */
    method ChargeBuckets(admission: Admission)
      requires Valid() && clock == admission.at && admission.bucket != GLOBAL
      requires GLOBAL in events && admission.bucket in events
      modifies this`events, this`lastSend, this`history
      ensures Valid() && history == old(history) + [admission]
    {
      BucketsCharged(events, history, admission);
      NewestCharged(lastSend, history, admission);
      events := events[GLOBAL := events[GLOBAL] + [admission.at]];
      events := events[admission.bucket := events[admission.bucket] + [admission.at]];
      lastSend := lastSend[admission.bucket := admission.at];
      history := history + [admission];
    }

    /**
     Consumes one token for one packet, or refuses. Whatever was pruned before, the
     outcome and the exact wait are the ones the full record gives, a refusal leaves
     the record alone, and an admission adds one entry to it.
     */
    method Check(call: Call, env: LimitConfig, now: real) returns (outcome: Outcome)
      requires Valid() && clock <= now
      modifies this
      ensures Valid() && clock == now
      ensures outcome == Gate(Limits(env), old(history), call, now)
      ensures history == Charge(old(history), call, now, outcome)
    {
      BucketsAge(events, history, clock, now);
      var key := Bucket(call);
      assert NewestAt(lastSend, history, key);
      hide Bucket, Buckets, Newest, Chronological, Live, Times, WindowWait;
      clock := now;
      var cfg := Limits(env);
      var limit := SpecificLimit(cfg, call);
      if key in lastSend && !call.continuation {
        var elapsed := now - lastSend[key];
        if elapsed < cfg.cooldown {
          return Refuse(CooldownScope, Some(cfg.cooldown - elapsed));
        }
      }
      Prune(GLOBAL, now);
      Prune(key, now);
      if |events[GLOBAL]| >= cfg.maxSends {
        return Refuse(GlobalScope, WindowWait(events[GLOBAL], cfg.maxSends, now));
      }
      if |events[key]| >= limit {
        return Refuse(SpecificScope(call), WindowWait(events[key], limit, now));
      }
      ChargeBuckets(Admission(key, now, call.continuation));
      outcome := Admitted;
    }
  }

  // ---------------------------------------------------------------------
  // What a refusal's wait means
  // ---------------------------------------------------------------------

  /** A window holds limit live stamps exactly until its limit-th newest one expires. */
  lemma FullUntilOldestExpires(ts: seq<real>, limit: int, t: real)
    requires Ordered(ts) && limit >= 1
    ensures |Live(ts, t)| >= limit <==> |ts| >= limit && t - ts[|ts| - limit] < SPAN
    ensures |Live(ts, t)| >= limit ==>
      WindowWait(Live(ts, t), limit, t) == Some(SPAN - (t - ts[|ts| - limit]))
  {
    LiveIsSuffix(ts, t);
  }

  /**
   The wait is exact. While nobody is admitted, the same packet meets the same gate,
   with the remaining wait, at every earlier time; from now + wait on that gate lets
   it through, and when it was the last gate the packet is admitted.
   */
  lemma WaitIsExact(cfg: LimitConfig, h: seq<Admission>, call: Call, now: real, t: real)
    requires Chronological(h, now) && Positive(cfg) && now <= t
    requires Gate(cfg, h, call, now).Refused?
    ensures var r := Gate(cfg, h, call, now);
      && 0.0 < r.wait <= (if r.scope == CooldownScope then cfg.cooldown else SPAN)
      && (t < now + r.wait ==> Gate(cfg, h, call, t) == Refused(r.scope, now + r.wait - t))
      && (t >= now + r.wait ==>
            && !(Gate(cfg, h, call, t).Refused? && Gate(cfg, h, call, t).scope == r.scope)
            && (r.scope == SpecificScope(call) ==> Gate(cfg, h, call, t) == Admitted))
  {
    var all, mine := Times(h, GLOBAL), Times(h, Bucket(call));
    TimesOrdered(h, GLOBAL, now);
    TimesOrdered(h, Bucket(call), now);
    FullUntilOldestExpires(all, cfg.maxSends, now);
    FullUntilOldestExpires(all, cfg.maxSends, t);
    FullUntilOldestExpires(mine, SpecificLimit(cfg, call), now);
    FullUntilOldestExpires(mine, SpecificLimit(cfg, call), t);
  }

  /** Being charged as a continuation changes a decision only where the cooldown refuses, and
      then the windows decide. Any caller can ask for it. */
  lemma ContinuationsSkipOnlyTheCooldown(cfg: LimitConfig, h: seq<Admission>, call: Call, now: real)
    ensures var whole, skipping := Gate(cfg, h, call.(continuation := false), now),
                                   Gate(cfg, h, call.(continuation := true), now);
      && !(skipping.Refused? && skipping.scope == CooldownScope)
      && (skipping == whole <==> !(whole.Refused? && whole.scope == CooldownScope))
  {
    assert Bucket(call.(continuation := false)) == Bucket(call.(continuation := true));
    hide Bucket, Live, Times;
  }

  /** The IndexError is possible exactly when some limit is below one. */
  lemma FaultNeedsALimitBelowOne(cfg: LimitConfig)
    ensures Positive(cfg) <==>
      forall h: seq<Admission>, call: Call, now: real :: Gate(cfg, h, call, now) != IndexFault
  {
    if !Positive(cfg) {
      var call := if cfg.maxDm < 1 then Call(Some("!"), None, false) else Call(None, None, false);
      assert Times([], GLOBAL) == [] == Times([], Bucket(call));
      assert Gate(cfg, [], call, 0.0) == IndexFault;
    }
  }

  /**
   An admission elsewhere touches a destination only through the shared bucket: the
   decision stays the same unless that one packet filled the global window.
   */
  lemma OthersShareOnlyTheGlobalBucket(cfg: LimitConfig, h: seq<Admission>, other: Call, at: real,
                                       call: Call, now: real)
    requires !SameDestination(other, call) && Positive(cfg)
    ensures var h' := Charge(h, other, at, Admitted);
      var before, after := Gate(cfg, h, call, now), Gate(cfg, h', call, now);
      || after == before
      || (&& after.Refused? && after.scope == GlobalScope
          && |Live(Times(h, GLOBAL), now)| + 1 >= cfg.maxSends)
  {
    BucketsSeparateDestinations(other, call);
    var h' := Charge(h, other, at, Admitted);
    TimesStep(h, Admission(Bucket(other), at, other.continuation), GLOBAL);
    TimesStep(h, Admission(Bucket(other), at, other.continuation), Bucket(call));
    assert Times(h', Bucket(call)) == Times(h, Bucket(call));
    assert Times(h', GLOBAL)[..|Times(h, GLOBAL)|] == Times(h, GLOBAL);
  }

  // ---------------------------------------------------------------------
  // Whole runs
  // ---------------------------------------------------------------------

  /** One call, when it read the clock, and the limits in force then. */
  datatype Request = Request(call: Call, now: real, cfg: LimitConfig)

  /** What a request is told, given the admissions before it. */
  function Answer(h: seq<Admission>, r: Request): Outcome {
    Gate(r.cfg, h, r.call, r.now)
  }

  /** The record left by a run of calls, admitted and refused alike. */
  function Record(run: seq<Request>): seq<Admission> {
    if run == [] then []
    else
      var h, r := Record(run[..|run| - 1]), run[|run| - 1];
      Charge(h, r.call, r.now, Answer(h, r))
  }

  lemma RecordStep(run: seq<Request>, r: Request)
    ensures Record(run + [r]) == Charge(Record(run), r.call, r.now, Answer(Record(run), r))
  {
    assert (run + [r])[..|run|] == run;
  }

  ghost predicate NondecreasingClock(run: seq<Request>) {
    forall i, j | 0 <= i < j < |run| :: run[i].now <= run[j].now
  }

  lemma {:induction false} RecordIsChronological(run: seq<Request>, clock: real)
    requires NondecreasingClock(run)
    requires run != [] ==> run[|run| - 1].now <= clock
    ensures Chronological(Record(run), clock)
  {
    if run != [] {
      hide Charge, Answer, Chronological;
      var front, last := run[..|run| - 1], run[|run| - 1];
      RecordIsChronological(front, last.now);
      ChargeKeepsChronological(Record(front), last, clock);
    } else {
      NothingIsChronological(clock);
    }
  }

  lemma NothingIsChronological(clock: real)
    ensures Chronological([], clock)
  {
  }

  lemma ChargeKeepsChronological(h: seq<Admission>, r: Request, clock: real)
    requires Chronological(h, r.now) && r.now <= clock
    ensures Chronological(Charge(h, r.call, r.now, Answer(h, r)), clock)
  {
    hide Answer, Bucket;
  }

  /** No request charged to a key is under a limit above this one. */
  ghost predicate LimitedBy(run: seq<Request>, key: string, limit: int) {
    forall r | r in run :: IsLimitedBy(r, key, limit)
  }

  ghost predicate IsLimitedBy(r: Request, key: string, limit: int) {
    if key == GLOBAL then r.cfg.maxSends <= limit
    else Bucket(r.call) == key ==> SpecificLimit(r.cfg, r.call) <= limit
  }

  lemma ChargeKeepsThrottled(h: seq<Admission>, r: Request, key: string, limit: int)
    requires Throttled(Times(h, key), limit) && IsLimitedBy(r, key, limit)
    ensures Throttled(Times(Charge(h, r.call, r.now, Answer(h, r)), key), limit)
  {
    hide Live, Times, Throttled, Bucket, WindowWait, SpecificScope;
    if Answer(h, r) == Admitted {
      TimesStep(h, Admission(Bucket(r.call), r.now, r.call.continuation), key);
      if key == GLOBAL || Bucket(r.call) == key {
        ThrottledStep(Times(h, key), limit, r.now);
      }
    }
  }

  lemma {:induction false} RecordIsThrottled(run: seq<Request>, key: string, limit: int)
    requires LimitedBy(run, key, limit)
    ensures Throttled(Times(Record(run), key), limit)
  {
    if run != [] {
      hide Times, Throttled, IsLimitedBy, Charge, Answer;
      var front, last := run[..|run| - 1], run[|run| - 1];
      RecordIsThrottled(front, key, limit);
      assert last in run;
      ChargeKeepsThrottled(Record(front), last, key, limit);
    }
  }

  /**
   In every run, an interval no longer than n windows holds at most n * limit packets
   of one bucket: all packets, the packets of one channel, or those to one peer.
   */
  lemma RunsStayWithinLimits(run: seq<Request>, key: string, limit: nat, lo: real, hi: real, n: nat)
    requires NondecreasingClock(run) && LimitedBy(run, key, limit)
    requires hi <= lo + Windows(n)
    ensures CountIn(Times(Record(run), key), lo, hi) <= n * limit
  {
    var clock := if run == [] then 0.0 else run[|run| - 1].now;
    RecordIsChronological(run, clock);
    TimesOrdered(Record(run), key, clock);
    RecordIsThrottled(run, key, limit);
    ManyWindowsBound(Times(Record(run), key), limit, lo, hi, n);
  }

  lemma {:induction false} NewestIsLatest(h: seq<Admission>, i: nat, clock: real)
    requires i < |h| && Chronological(h, clock)
    ensures var ts := Times(h, h[i].bucket); ts != [] && h[i].at <= ts[|ts| - 1]
  {
    var front := h[..|h| - 1];
    if i < |front| {
      NewestIsLatest(front, i, clock);
    }
  }

  /** In every run, a packet that is not charged as a continuation follows every earlier
      packet to its destination, continuations included, by at least the cooldown. */
  lemma {:induction false} TurnsAreSpaced(run: seq<Request>, cooldown: real, i: nat, j: nat)
    requires NondecreasingClock(run)
    requires forall r | r in run :: r.cfg.cooldown >= cooldown
    requires i < j < |Record(run)|
    requires Record(run)[i].bucket == Record(run)[j].bucket && !Record(run)[j].continuation
    ensures Record(run)[j].at - Record(run)[i].at >= cooldown
  {
    var front, last := run[..|run| - 1], run[|run| - 1];
    var h := Record(front);
    if j < |h| {
      TurnsAreSpaced(front, cooldown, i, j);
    } else {
      RecordIsChronological(front, last.now);
      NewestIsLatest(h, i, last.now);
      assert last in run;
    }
  }

  /** A refused request can be struck from a run: whatever follows it meets the same
      record, so it gets the same replies. */
  lemma {:induction false} RefusalsLeaveNoTrace(before: seq<Request>, r: Request, after: seq<Request>)
    requires Answer(Record(before), r) != Admitted
    ensures Record(before + [r] + after) == Record(before + after)
  {
    hide Gate;
    if after == [] {
      RecordStep(before, r);
      assert before + [r] + after == before + [r] && before + after == before;
    } else {
      var front, last := after[..|after| - 1], after[|after| - 1];
      RefusalsLeaveNoTrace(before, r, front);
      RecordStep(before + [r] + front, last);
      RecordStep(before + front, last);
      assert before + [r] + after == (before + [r] + front) + [last];
      assert before + after == (before + front) + [last];
    }
  }
}
