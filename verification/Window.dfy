/** Sliding windows over time stamps: the pruning a bucket does, and the bound it enforces. */
module Window {

  /** WINDOW_SECONDS. */
  const SPAN: real := 60.0

  ghost predicate Ordered(ts: seq<real>) {
    forall i, j | 0 <= i < j < |ts| :: ts[i] <= ts[j]
  }

  /** The stamps younger than the window at time now. */
  function Live(ts: seq<real>, now: real): (live: seq<real>)
    ensures |live| <= |ts|
  {
    if ts == [] then []
    else
      var front := Live(ts[..|ts| - 1], now);
      if now - ts[|ts| - 1] < SPAN then front + [ts[|ts| - 1]] else front
  }

  /** How many stamps lie in the half-open interval [lo, hi). */
  function CountIn(ts: seq<real>, lo: real, hi: real): nat {
    if ts == [] then 0
    else CountIn(ts[..|ts| - 1], lo, hi) + (if lo <= ts[|ts| - 1] < hi then 1 else 0)
  }

  /** stored is full without some stamps at the front that had expired by time clock. */
  ghost predicate PrunedFrom(stored: seq<real>, full: seq<real>, clock: real) {
    && |stored| <= |full|
    && stored == full[|full| - |stored|..]
    && forall i | 0 <= i < |full| - |stored| :: clock - full[i] >= SPAN
  }

  lemma {:induction false} LiveOfSuffix(ts: seq<real>, cut: nat, now: real)
    requires cut <= |ts|
    requires forall i | 0 <= i < cut :: now - ts[i] >= SPAN
    ensures Live(ts, now) == Live(ts[cut..], now)
  {
    if cut < |ts| {
      LiveOfSuffix(ts[..|ts| - 1], cut, now);
      assert ts[..|ts| - 1][cut..] == ts[cut..][..|ts| - 1 - cut];
      assert ts[cut..] != [] && ts[cut..][|ts| - cut - 1] == ts[|ts| - 1];
    } else if ts != [] {
      LiveOfSuffix(ts[..|ts| - 1], cut - 1, now);
      assert ts[..|ts| - 1][cut - 1..] == [] == ts[cut..];
    }
  }

  /** Pruning loses nothing a later reader of the window can see. */
  lemma PruningIsInvisible(stored: seq<real>, full: seq<real>, clock: real, now: real)
    requires PrunedFrom(stored, full, clock) && clock <= now
    ensures Live(stored, now) == Live(full, now)
  {
    LiveOfSuffix(full, |full| - |stored|, now);
  }

  /** Of ordered stamps exactly a suffix is live. */
  lemma {:induction false} LiveIsSuffix(ts: seq<real>, now: real)
    requires Ordered(ts)
    ensures var cut := |ts| - |Live(ts, now)|;
      && Live(ts, now) == ts[cut..]
      && (forall i | 0 <= i < cut :: now - ts[i] >= SPAN)
      && (forall i | cut <= i < |ts| :: now - ts[i] < SPAN)
  {
    if ts != [] {
      var front, last := ts[..|ts| - 1], ts[|ts| - 1];
      if now - last < SPAN {
        assert forall i | 0 <= i < |front| :: front[i] == ts[i];
        LiveIsSuffix(front, now);
        var cut := |front| - |Live(front, now)|;
        assert ts[cut..] == front[cut..] + [last];
      } else {
        LiveOfSuffix(ts, |ts|, now);
      }
    }
  }

  /** Pruning again, at a later time, is still a pruning of the full record. */
  lemma PruneAgain(stored: seq<real>, full: seq<real>, clock: real, now: real)
    requires PrunedFrom(stored, full, clock) && clock <= now && Ordered(full)
    ensures PrunedFrom(Live(stored, now), full, now)
  {
    PruningIsInvisible(stored, full, clock, now);
    LiveIsSuffix(full, now);
  }

  lemma {:induction false} CountAtMostLive(ts: seq<real>, lo: real, hi: real, now: real)
    requires now - lo < SPAN
    ensures CountIn(ts, lo, hi) <= |Live(ts, now)|
  {
    if ts != [] {
      CountAtMostLive(ts[..|ts| - 1], lo, hi, now);
    }
  }

  lemma {:induction false} NothingBefore(ts: seq<real>, lo: real, hi: real)
    requires forall i | 0 <= i < |ts| :: ts[i] < lo
    ensures CountIn(ts, lo, hi) == 0
  {
    if ts != [] {
      NothingBefore(ts[..|ts| - 1], lo, hi);
    }
  }

  /** Every stamp was taken while fewer than limit earlier ones were live. */
  ghost predicate Throttled(ts: seq<real>, limit: int) {
    forall i | 0 <= i < |ts| :: |Live(ts[..i], ts[i])| < limit
  }

  /** A throttled record has at most limit stamps in every interval of one window. */
  lemma {:induction false} OneWindowBound(ts: seq<real>, limit: nat, lo: real)
    requires Ordered(ts) && Throttled(ts, limit)
    ensures CountIn(ts, lo, lo + SPAN) <= limit
  {
    if ts == [] {
      return;
    }
    var front, last := ts[..|ts| - 1], ts[|ts| - 1];
    if last < lo {
      NothingBefore(ts, lo, lo + SPAN);
    } else if last < lo + SPAN {
      CountAtMostLive(front, lo, lo + SPAN, last);
      assert |Live(front, last)| < limit;
    } else {
      ThrottledFront(ts, limit);
      OneWindowBound(front, limit, lo);
    }
  }

  lemma ThrottledFront(ts: seq<real>, limit: int)
    requires ts != [] && Throttled(ts, limit)
    ensures Throttled(ts[..|ts| - 1], limit)
  {
    var front := ts[..|ts| - 1];
    forall i | 0 <= i < |front| ensures |Live(front[..i], front[i])| < limit {
      assert front[..i] == ts[..i];
    }
  }

  lemma ThrottledStep(ts: seq<real>, limit: int, t: real)
    requires Throttled(ts, limit) && |Live(ts, t)| < limit
    ensures Throttled(ts + [t], limit)
  {
    var ts' := ts + [t];
    forall i | 0 <= i < |ts'| ensures |Live(ts'[..i], ts'[i])| < limit {
      assert ts'[..i] == ts[..i];
      assert ts[..|ts|] == ts;
    }
  }

  lemma {:induction false} CountSplits(ts: seq<real>, lo: real, mid: real, hi: real)
    requires lo <= mid <= hi
    ensures CountIn(ts, lo, hi) == CountIn(ts, lo, mid) + CountIn(ts, mid, hi)
  {
    if ts != [] {
      CountSplits(ts[..|ts| - 1], lo, mid, hi);
    }
  }

  lemma {:induction false} CountMonotone(ts: seq<real>, lo: real, hi: real, hi': real)
    requires hi <= hi'
    ensures CountIn(ts, lo, hi) <= CountIn(ts, lo, hi')
  {
    if ts != [] {
      CountMonotone(ts[..|ts| - 1], lo, hi, hi');
    }
  }

  /** The length of n windows. */
  function Windows(n: nat): real {
    n as real * 60.0
  }

  /** An interval no longer than n windows holds at most n * limit stamps. */
  lemma {:induction false} ManyWindowsBound(ts: seq<real>, limit: nat, lo: real, hi: real, n: nat)
    requires Ordered(ts) && Throttled(ts, limit)
    requires hi <= lo + Windows(n)
    ensures CountIn(ts, lo, hi) <= n * limit
    decreases n
  {
    if n == 0 {
      EmptyInterval(ts, lo, hi);
    } else if hi <= lo + SPAN {
      OneWindowBound(ts, limit, lo);
      CountMonotone(ts, lo, hi, lo + SPAN);
      assert n * limit == (n - 1) * limit + limit;
      assert (n - 1) * limit >= 0;
    } else {
      CountSplits(ts, lo, lo + SPAN, hi);
      OneWindowBound(ts, limit, lo);
      ManyWindowsBound(ts, limit, lo + SPAN, hi, n - 1);
      assert n * limit == (n - 1) * limit + limit;
    }
  }

  lemma {:induction false} EmptyInterval(ts: seq<real>, lo: real, hi: real)
    requires hi <= lo
    ensures CountIn(ts, lo, hi) == 0
  {
    if ts != [] {
      EmptyInterval(ts[..|ts| - 1], lo, hi);
    }
  }
}
