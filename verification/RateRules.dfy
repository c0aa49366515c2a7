/**
 The limiter's rules in terms of its record and its settings alone: which setting holds
 for which packets, when exactly a packet is admitted, and which gate turns it away.
 */
module RateRules {
  import opened Prelude
  import opened Window
  import opened RateLimit

  /** Packets of one bucket in the last minute, as the record tells. */
  function Recent(h: seq<Admission>, bucket: string, now: real): nat {
    if h == [] then 0
    else
      var last := h[|h| - 1];
      Recent(h[..|h| - 1], bucket, now) + (if last.bucket == bucket && now - last.at < 60.0 then 1 else 0)
  }

  /** All packets in the last minute. */
  function RecentOfAll(h: seq<Admission>, now: real): nat {
    if h == [] then 0
    else RecentOfAll(h[..|h| - 1], now) + (if now - h[|h| - 1].at < 60.0 then 1 else 0)
  }

  /** Some packet of the bucket is younger than the cooldown. */
  ghost predicate TooSoon(h: seq<Admission>, bucket: string, cooldown: real, now: real) {
    exists i | 0 <= i < |h| :: h[i].bucket == bucket && now - h[i].at < cooldown
  }

  lemma {:induction false} RecentIsLive(h: seq<Admission>, bucket: string, now: real)
    requires bucket != GLOBAL
    ensures Recent(h, bucket, now) == |Live(Times(h, bucket), now)|
  {
    if h != [] {
      var front, last := h[..|h| - 1], h[|h| - 1];
      RecentIsLive(front, bucket, now);
      assert h == front + [last];
      LiveStep(Times(front, bucket), last.at, now);
    }
  }

  lemma {:induction false} RecentOfAllIsLive(h: seq<Admission>, now: real)
    ensures RecentOfAll(h, now) == |Live(Times(h, GLOBAL), now)|
  {
    if h != [] {
      var front, last := h[..|h| - 1], h[|h| - 1];
      RecentOfAllIsLive(front, now);
      LiveStep(Times(front, GLOBAL), last.at, now);
    }
  }

  lemma LiveStep(ts: seq<real>, t: real, now: real)
    ensures |Live(ts + [t], now)| == |Live(ts, now)| + if now - t < 60.0 then 1 else 0
  {
    assert (ts + [t])[..|ts|] == ts;
  }

  /** The newest packet of the bucket decides whether it is too soon. */
  lemma {:induction false} TooSoonIsNewest(h: seq<Admission>, bucket: string, cooldown: real, now: real, clock: real)
    requires bucket != GLOBAL && Chronological(h, clock)
    ensures var ts := Times(h, bucket);
      TooSoon(h, bucket, cooldown, now) <==> ts != [] && now - ts[|ts| - 1] < cooldown
  {
    if h != [] {
      var front, last := h[..|h| - 1], h[|h| - 1];
      TooSoonIsNewest(front, bucket, cooldown, now, last.at);
      TooSoonStep(h, bucket, cooldown, now);
      TimesOrdered(front, bucket, last.at);
      if last.bucket == bucket && TooSoon(front, bucket, cooldown, now) {
        var ts := Times(front, bucket);
        assert ts[|ts| - 1] <= last.at;
      }
      hide TooSoon, Chronological;
    }
  }

  lemma TooSoonStep(h: seq<Admission>, bucket: string, cooldown: real, now: real)
    requires h != []
    ensures var n := |h| - 1;
      TooSoon(h, bucket, cooldown, now) <==>
        TooSoon(h[..n], bucket, cooldown, now) || (h[n].bucket == bucket && now - h[n].at < cooldown)
  {
    var n := |h| - 1;
    if i :| 0 <= i < |h| && h[i].bucket == bucket && now - h[i].at < cooldown {
      assert i < n ==> h[..n][i] == h[i];
    }
  }

  /** What the limiter says of a packet that counts under this bucket and limit. */
  ghost predicate Decides(g: Outcome, h: seq<Admission>, cfg: LimitConfig, bucket: string, limit: int,
                          scope: Scope, continuation: bool, now: real) {
    var resting := !continuation && TooSoon(h, bucket, cfg.cooldown, now);
    && (g == Admitted <==> !resting && RecentOfAll(h, now) < cfg.maxSends && Recent(h, bucket, now) < limit)
    && (cfg.maxSends >= 1 && limit >= 1 ==>
          && (g.Refused? && g.scope == CooldownScope <==> resting)
          && (g.Refused? && g.scope == GlobalScope <==> !resting && RecentOfAll(h, now) >= cfg.maxSends)
          && (g.Refused? && g.scope == scope <==>
                !resting && RecentOfAll(h, now) < cfg.maxSends && Recent(h, bucket, now) >= limit))
  }

  lemma RecentFor(h: seq<Admission>, cfg: LimitConfig, bucket: string, now: real)
    requires bucket != GLOBAL && Chronological(h, now)
    ensures Recent(h, bucket, now) == |Live(Times(h, bucket), now)|
    ensures RecentOfAll(h, now) == |Live(Times(h, GLOBAL), now)|
    ensures var ts := Times(h, bucket);
      TooSoon(h, bucket, cfg.cooldown, now) <==> ts != [] && now - ts[|ts| - 1] < cfg.cooldown
  {
    RecentIsLive(h, bucket, now);
    RecentOfAllIsLive(h, now);
    TooSoonIsNewest(h, bucket, cfg.cooldown, now, now);
  }

  /** Gate, told in terms of three questions. */
  lemma GateAsks(cfg: LimitConfig, h: seq<Admission>, call: Call, now: real)
    ensures var ts := Times(h, Bucket(call));
      var resting := !call.continuation && ts != [] && now - ts[|ts| - 1] < cfg.cooldown;
      var all, mine, limit := |Live(Times(h, GLOBAL), now)|, |Live(ts, now)|, SpecificLimit(cfg, call);
      var g := Gate(cfg, h, call, now);
      && (g == Admitted <==> !resting && all < cfg.maxSends && mine < limit)
      && (resting ==> g.Refused? && g.scope == CooldownScope)
      && (!resting && all >= cfg.maxSends && cfg.maxSends >= 1 ==> g.Refused? && g.scope == GlobalScope)
      && (!resting && all < cfg.maxSends && mine >= limit && limit >= 1 ==>
            g.Refused? && g.scope == SpecificScope(call))
  {
    WaitIsKnown(Live(Times(h, GLOBAL), now), cfg.maxSends, now);
    WaitIsKnown(Live(Times(h, Bucket(call)), now), SpecificLimit(cfg, call), now);
    hide Bucket, Live, Times, WindowWait, SpecificLimit, SpecificScope;
  }

  lemma GateDecides(cfg: LimitConfig, h: seq<Admission>, call: Call, now: real)
    requires Chronological(h, now)
    ensures Decides(Gate(cfg, h, call, now), h, cfg, Bucket(call),
                    if call.dest.Some? && call.dest.value != "" then cfg.maxDm else cfg.maxChannel,
                    if call.dest.Some? && call.dest.value != "" then DmScope else ChannelScope,
                    call.continuation, now)
  {
    RecentFor(h, cfg, Bucket(call), now);
    GateAsks(cfg, h, call, now);
    hide Bucket, Live, Times, Recent, RecentOfAll, TooSoon, Chronological, Gate;
  }

  lemma WaitIsKnown(stamps: seq<real>, limit: int, now: real)
    ensures limit >= 1 ==> WindowWait(stamps, limit, now).Some?
  {
  }

  /**
   A direct message counts under its node and maxDm: it is admitted exactly when the
   cooldown is over or skipped, fewer than maxSends packets went out in the last minute,
   and fewer than maxDm of them to that node; else the first of these that fails is named.
   */
  lemma DirectMessageIsDecided(cfg: LimitConfig, h: seq<Admission>, node: string, channel: Option<int>,
                               continuation: bool, now: real)
    requires Chronological(h, now) && node != ""
    ensures Decides(Gate(cfg, h, Call(Some(node), channel, continuation), now),
                    h, cfg, "dm:" + node, cfg.maxDm, DmScope, continuation, now)
  {
    var call := Call(Some(node), channel, continuation);
    assert Bucket(call) == "dm:" + node;
    GateDecides(cfg, h, call, now);
    hide *;
  }

  /** A broadcast counts under its channel and maxChannel, in the same way; a missing channel
      is channel 0. */
  lemma BroadcastIsDecided(cfg: LimitConfig, h: seq<Admission>, dest: Option<string>, channel: Option<int>,
                           continuation: bool, now: real)
    requires Chronological(h, now) && (dest.Some? ==> dest.value == "")
    ensures var c := if channel.Some? then channel.value else 0;
      Decides(Gate(cfg, h, Call(dest, channel, continuation), now),
              h, cfg, "ch:" + Decimal(c), cfg.maxChannel, ChannelScope, continuation, now)
  {
    var call := Call(dest, channel, continuation);
    assert Bucket(call) == "ch:" + Decimal(if channel.Some? then channel.value else 0);
    GateDecides(cfg, h, call, now);
    hide *;
  }

  // ---------------------------------------------------------------------
  // The bounds of whole runs, setting by setting
  // ---------------------------------------------------------------------

  /** Packets of one bucket that the record has between two times. */
  function Between(h: seq<Admission>, bucket: string, lo: real, hi: real): nat {
    if h == [] then 0
    else
      var last := h[|h| - 1];
      Between(h[..|h| - 1], bucket, lo, hi) + (if last.bucket == bucket && lo <= last.at < hi then 1 else 0)
  }

  function AllBetween(h: seq<Admission>, lo: real, hi: real): nat {
    if h == [] then 0
    else AllBetween(h[..|h| - 1], lo, hi) + (if lo <= h[|h| - 1].at < hi then 1 else 0)
  }

  lemma CountStep(ts: seq<real>, t: real, lo: real, hi: real)
    ensures CountIn(ts + [t], lo, hi) == CountIn(ts, lo, hi) + if lo <= t < hi then 1 else 0
  {
    assert (ts + [t])[..|ts|] == ts;
  }

  lemma {:induction false} BetweenIsCount(h: seq<Admission>, bucket: string, lo: real, hi: real)
    requires bucket != GLOBAL
    ensures Between(h, bucket, lo, hi) == CountIn(Times(h, bucket), lo, hi)
  {
    if h != [] {
      BetweenIsCount(h[..|h| - 1], bucket, lo, hi);
      CountStep(Times(h[..|h| - 1], bucket), h[|h| - 1].at, lo, hi);
    }
  }

  lemma {:induction false} AllBetweenIsCount(h: seq<Admission>, lo: real, hi: real)
    ensures AllBetween(h, lo, hi) == CountIn(Times(h, GLOBAL), lo, hi)
  {
    if h != [] {
      AllBetweenIsCount(h[..|h| - 1], lo, hi);
      CountStep(Times(h[..|h| - 1], GLOBAL), h[|h| - 1].at, lo, hi);
    }
  }

  /** In every run, n minutes hold at most n times maxDm packets to one node. */
  lemma NodesStayWithinLimits(run: seq<Request>, node: string, limit: nat, lo: real, hi: real, n: nat)
    requires NondecreasingClock(run) && node != ""
    requires forall r | r in run :: r.cfg.maxDm <= limit
    requires hi <= lo + 60.0 * n as real
    ensures Between(Record(run), "dm:" + node, lo, hi) <= n * limit
  {
    NotGlobal("dm:" + node);
    forall r | r in run ensures IsLimitedBy(r, "dm:" + node, limit) {
      BucketIsDm(r.call, node);
    }
    BetweenIsCount(Record(run), "dm:" + node, lo, hi);
    hide NondecreasingClock, Record, IsLimitedBy;
    RunsStayWithinLimits(run, "dm:" + node, limit, lo, hi, n);
  }

  lemma NotGlobal(key: string)
    requires key != "" && key[0] != 'g'
    ensures key != GLOBAL
  {
  }

  lemma BucketIsDm(call: Call, node: string)
    ensures Bucket(call) == "dm:" + node ==> call.dest == Some(node) && node != ""
  {
    var key := Bucket(call);
    if key == "dm:" + node {
      assert key[0] == 'd' && key[3..] == node;
      if call.dest.Some? && call.dest.value != "" {
        assert ("dm:" + call.dest.value)[3..] == call.dest.value;
      }
    }
  }

  /** And at most n times maxChannel broadcasts on one channel. */
  lemma ChannelsStayWithinLimits(run: seq<Request>, channel: int, limit: nat, lo: real, hi: real, n: nat)
    requires NondecreasingClock(run)
    requires forall r | r in run :: r.cfg.maxChannel <= limit
    requires hi <= lo + 60.0 * n as real
    ensures Between(Record(run), "ch:" + Decimal(channel), lo, hi) <= n * limit
  {
    var key := "ch:" + Decimal(channel);
    NotGlobal(key);
    forall r | r in run ensures IsLimitedBy(r, key, limit) {
      BucketIsChannel(r.call, channel);
    }
    BetweenIsCount(Record(run), key, lo, hi);
    hide NondecreasingClock, Record, IsLimitedBy, Decimal;
    RunsStayWithinLimits(run, key, limit, lo, hi, n);
  }

  lemma BucketIsChannel(call: Call, channel: int)
    ensures Bucket(call) == "ch:" + Decimal(channel) ==> call.dest.None? || call.dest.value == ""
  {
    hide Decimal;
    var key := Bucket(call);
    if key == "ch:" + Decimal(channel) {
      assert key[0] == 'c';
    }
  }

  /** And at most n times maxSends packets in all. */
  lemma AllStayWithinLimits(run: seq<Request>, limit: nat, lo: real, hi: real, n: nat)
    requires NondecreasingClock(run)
    requires forall r | r in run :: r.cfg.maxSends <= limit
    requires hi <= lo + 60.0 * n as real
    ensures AllBetween(Record(run), lo, hi) <= n * limit
  {
    assert LimitedBy(run, GLOBAL, limit);
    AllBetweenIsCount(Record(run), lo, hi);
    hide NondecreasingClock, Record, LimitedBy;
    RunsStayWithinLimits(run, GLOBAL, limit, lo, hi, n);
  }
}
