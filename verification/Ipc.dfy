/**
 Sidecar requests inside the adapter: the request window, and the waiters that match
 results to the forwarded requests they answer.
 */
module Ipc {
  import opened Window

  const MAX_WAITERS := 32
  const MAX_PER_MINUTE := 120

  // ---------------------------------------------------------------------
  // The request window
  // ---------------------------------------------------------------------

  /** The record of counted requests is ordered, past, and never over the limit. */
  ghost predicate Recorded(counted: seq<real>, clock: real) {
    && Ordered(counted) && (forall i | 0 <= i < |counted| :: counted[i] <= clock)
    && Throttled(counted, MAX_PER_MINUTE)
  }

  lemma RecordAges(counted: seq<real>, clock: real, now: real)
    requires Recorded(counted, clock) && clock <= now
    ensures Recorded(counted, now)
  {
    hide Throttled;
  }

  lemma RecordGrows(counted: seq<real>, now: real)
    requires Recorded(counted, now) && |Live(counted, now)| < MAX_PER_MINUTE
    ensures Recorded(counted + [now], now)
  {
    ThrottledStep(counted, MAX_PER_MINUTE, now);
    hide Throttled, Live;
  }

  lemma PrunedGrows(times: seq<real>, counted: seq<real>, now: real)
    requires PrunedFrom(times, counted, now)
    ensures PrunedFrom(times + [now], counted + [now], now)
  {
    assert (counted + [now])[|counted| - |times|..] == times + [now];
  }

  /** Popping expired times off the front leaves exactly the live ones. */
  lemma PoppedIsLive(times: seq<real>, counted: seq<real>, now: real)
    requires Ordered(counted) && PrunedFrom(times, counted, now)
    requires times == [] || now - times[0] < SPAN
    ensures times == Live(counted, now)
  {
    PruningIsInvisible(times, counted, now, now);
    var cut := |counted| - |times|;
    assert forall i | 0 <= i < |times| :: times[i] == counted[cut + i];
    AllLive(times, now);
  }

  lemma {:induction false} AllLive(ts: seq<real>, now: real)
    requires Ordered(ts) && (ts == [] || now - ts[0] < SPAN)
    ensures Live(ts, now) == ts
  {
    if |ts| > 0 {
      AllLive(ts[..|ts| - 1], now);
      assert ts[0] <= ts[|ts| - 1] || |ts| == 1;
    }
  }

  lemma PruningAges(times: seq<real>, counted: seq<real>, clock: real, now: real)
    requires PrunedFrom(times, counted, clock) && clock <= now
    ensures PrunedFrom(times, counted, now)
  {
  }

  lemma PopFirst(times: seq<real>, counted: seq<real>, now: real)
    requires PrunedFrom(times, counted, now)
    requires times != [] && now - times[0] >= SPAN
    ensures PrunedFrom(times[1..], counted, now)
  {
  }

  class RequestWindow {
    var times: seq<real>
    // Every request ever counted, and the last time read.
    ghost var counted: seq<real>
    ghost var clock: real

    ghost predicate Valid()
      reads this
    {
      Recorded(counted, clock) && PrunedFrom(times, counted, clock)
    }

    constructor (start: real)
      ensures Valid() && counted == [] && clock == start
    {
      times, counted, clock := [], [], start;
    }

    /** The popping loop: expired times leave by the front. */
    method Pop(now: real)
      requires PrunedFrom(times, counted, now) && Recorded(counted, now)
      modifies this`times
      ensures times == Live(counted, now) && PrunedFrom(times, counted, now)
    {
      hide Live, Throttled;
      while times != [] && times[0] <= now - 60.0
        invariant PrunedFrom(times, counted, now)
      {
        PopFirst(times, counted, now);
        times := times[1..];
      }
      PoppedIsLive(times, counted, now);
    }

    /** Counts a request, unless the last minute is full: decided as if nothing was popped. */
    method Admit(now: real) returns (ok: bool)
      requires Valid() && clock <= now
      modifies this
      ensures Valid() && clock == now
      ensures ok <==> |Live(old(counted), now)| < 120
      ensures counted == if ok then old(counted) + [now] else old(counted)
    {
      PruningAges(times, counted, clock, now);
      RecordAges(counted, clock, now);
      hide Recorded, Live, PrunedFrom;
      clock := now;
      Pop(now);
      if |times| >= MAX_PER_MINUTE {
        return false;
      }
      RecordGrows(counted, now);
      PrunedGrows(times, counted, now);
      times := times + [now];
      counted := counted + [now];
      ok := true;
    }

    /** No minute ever holds more counted requests than the limit. */
    lemma MinutesAreBounded(lo: real)
      requires Valid()
      ensures CountIn(counted, lo, lo + 60.0) <= 120
    {
      OneWindowBound(counted, MAX_PER_MINUTE, lo);
    }
  }

  // ---------------------------------------------------------------------
  // Forwarded requests
  // ---------------------------------------------------------------------

  datatype Future = Pending | Result(id: string) | Failed | Cancelled

  datatype Outcome = Answered(id: string) | TimedOut | Aborted | Dropped

  /** Where the coroutine of one forwarded request stands. */
  datatype Phase = Writing | Waiting | Ended(outcome: Outcome)

  datatype Request = Request(id: string, phase: Phase, future: Future)

  /** The waiter map, by request id, and every request ever forwarded. */
  datatype Desk = Desk(waiters: map<string, nat>, requests: seq<Request>)

  const EMPTY := Desk(map[], [])

  /** What runs between two suspension points of the event loop. */
  datatype Step =
    | Forward(id: string)
    | Written(n: nat)
    | Drop(n: nat)
    | Deliver(id: string)
    | Expire(n: nat)
    | Resume(n: nat)
    | Stop

  predicate IsLive(r: Request) {
    !r.phase.Ended?
  }

  function Without(waiters: map<string, nat>, id: string): map<string, nat> {
    waiters - {id}
  }

  /** set_result and set_exception on a future that is not done. */
  function Settle(r: Request, f: Future): Request {
    if r.future.Pending? then r.(future := f) else r
  }

  /** What stopping leaves of the request of number n. */
  function Aborting(waiters: map<string, nat>, r: Request, n: nat): Request {
    if n in waiters.Values then Settle(r, Failed) else r
  }

  predicate Enabled(d: Desk, step: Step) {
    match step
    case Forward(_) => |d.waiters| < MAX_WAITERS
    case Written(n) => n < |d.requests| && d.requests[n].phase.Writing?
    case Drop(n) => n < |d.requests| && IsLive(d.requests[n])
    case Deliver(id) => id in d.waiters && d.waiters[id] < |d.requests|
    case Expire(n) => n < |d.requests| && d.requests[n].phase.Waiting? && d.requests[n].future.Pending?
    case Resume(n) => n < |d.requests| && d.requests[n].phase.Waiting? && !d.requests[n].future.Pending?
    case Stop => true
  }

  /**
   Drop is a coroutine that ends without cleaning up: its write failed, or it was
   cancelled. Its waiter stays in the map. Expire is the 30 seconds running out, and
   Resume the coroutine waking up once its future is done.
   */
  function Next(d: Desk, step: Step): Desk {
    if !Enabled(d, step) then d
    else
      match step
      case Forward(id) =>
        Desk(d.waiters[id := |d.requests|], d.requests + [Request(id, Writing, Pending)])
      case Written(n) => d.(requests := d.requests[n := d.requests[n].(phase := Waiting)])
      case Drop(n) =>
        var r := if d.requests[n].phase.Waiting? then Settle(d.requests[n], Cancelled) else d.requests[n];
        d.(requests := d.requests[n := r.(phase := Ended(Dropped))])
      case Deliver(id) =>
        var n := d.waiters[id];
        Desk(Without(d.waiters, id), d.requests[n := Settle(d.requests[n], Result(id))])
      case Expire(n) => d.(requests := d.requests[n := Settle(d.requests[n], Cancelled)])
      case Stop =>
        Desk(map[], seq(|d.requests|, n requires 0 <= n < |d.requests| => Aborting(d.waiters, d.requests[n], n)))
      case Resume(n) =>
        var r := d.requests[n];
        match r.future
        case Result(answer) => d.(requests := d.requests[n := r.(phase := Ended(Answered(answer)))])
        case Failed => d.(requests := d.requests[n := r.(phase := Ended(Aborted))])
        case Cancelled =>
          Desk(Without(d.waiters, r.id), d.requests[n := r.(phase := Ended(TimedOut))])
  }

  /** The desk after any order of steps; a step nobody is at does nothing. */
  function After(steps: seq<Step>): Desk {
    if steps == [] then EMPTY else Next(After(steps[..|steps| - 1]), steps[|steps| - 1])
  }

  // ---------------------------------------------------------------------
  // The adapter's side of it
  // ---------------------------------------------------------------------

  /** How a request to forward is taken. */
  datatype Admission = NotRegistered | QueueFull | Queued

  class Forwarder {
    var waiters: map<string, nat>
    var requests: seq<Request>

    function View(): Desk
      reads this
    {
      Desk(waiters, requests)
    }

    ghost predicate Valid()
      reads this
    {
      forall id | id in waiters :: waiters[id] < |requests|
    }

    constructor ()
      ensures Valid() && View() == EMPTY
    {
      waiters, requests := map[], [];
    }

    /** The part of _forward_meshagatchi before it first suspends. Registered says whether
        a sidecar has registered whose connection is not closing. */
    method Begin(id: string, registered: bool) returns (admission: Admission)
      requires Valid()
      modifies this
      ensures Valid() && View() == if registered then Next(old(View()), Forward(id)) else old(View())
      ensures admission == NotRegistered <==> !registered
      ensures admission == Queued <==> registered && |old(waiters)| < 32
      ensures admission == Queued ==>
        requests == old(requests) + [Request(id, Writing, Pending)] && IsNamed(View(), id, |old(requests)|)
    {
      if !registered {
        return NotRegistered;
      }
      if |waiters| >= MAX_WAITERS {
        return QueueFull;
      }
      waiters := waiters[id := |requests|];
      requests := requests + [Request(id, Writing, Pending)];
      admission := Queued;
    }

    /** An event.result frame. */
    method OnResult(id: string)
      requires Valid()
      modifies this
      ensures Valid() && View() == Next(old(View()), Deliver(id))
    {
      if id in waiters {
        var n := waiters[id];
        waiters := Without(waiters, id);
        if requests[n].future.Pending? {
          requests := requests[n := requests[n].(future := Result(id))];
        }
      }
    }

    /** The end of _forward_meshagatchi: a result, a stop, or the timeout's clean-up. */
    method Finish(n: nat) returns (outcome: Outcome)
      requires Valid() && Enabled(View(), Resume(n))
      modifies this
      ensures Valid() && View() == Next(old(View()), Resume(n))
      ensures requests[n].phase == Ended(outcome)
    {
      match requests[n].future {
        case Result(answer) =>
          outcome := Answered(answer);
        case Failed =>
          outcome := Aborted;
        case Cancelled =>
          waiters := Without(waiters, requests[n].id);
          outcome := TimedOut;
      }
      requests := requests[n := requests[n].(phase := Ended(outcome))];
    }

    /** The waiter clean-up of _stop_meshagatchi_ipc. */
    method StopAll()
      requires Valid()
      modifies this
      ensures Valid() && View() == Next(old(View()), Stop)
    {
      ghost var before := requests;
      var left := waiters.Keys;
      ghost var done: set<nat> := {};
      while left != {}
        invariant left <= waiters.Keys && waiters == old(waiters) && |requests| == |before|
        invariant done == set id | id in waiters && id !in left :: waiters[id]
        invariant forall n | 0 <= n < |before| ::
          requests[n] == if n in done then Settle(before[n], Failed) else before[n]
        decreases left
      {
        var id :| id in left;
        var n := waiters[id];
        if requests[n].future.Pending? {
          requests := requests[n := requests[n].(future := Failed)];
        }
        left := left - {id};
        done := done + {n};
      }
      assert done == waiters.Values;
      waiters := map[];
      assert View() == Next(old(View()), Stop);
    }
  }

  // ---------------------------------------------------------------------
  // What every run keeps, whatever ids are used
  // ---------------------------------------------------------------------

  ghost predicate WaitersPoint(d: Desk) {
    forall id | id in d.waiters :: d.waiters[id] < |d.requests| && d.requests[d.waiters[id]].id == id
  }

  // What a step does to one request, and to the map

  function RequestAfter(d: Desk, step: Step, n: nat): Request
    requires n < |d.requests|
  {
    var r := d.requests[n];
    if !Enabled(d, step) then r
    else
      match step
      case Forward(_) => r
      case Written(m) => if m == n then r.(phase := Waiting) else r
      case Drop(m) =>
        if m == n then (if r.phase.Waiting? then Settle(r, Cancelled) else r).(phase := Ended(Dropped)) else r
      case Deliver(id) => if d.waiters[id] == n then Settle(r, Result(id)) else r
      case Expire(m) => if m == n then Settle(r, Cancelled) else r
      case Stop => Aborting(d.waiters, r, n)
      case Resume(m) =>
        if m != n then r
        else
          match r.future
          case Result(answer) => r.(phase := Ended(Answered(answer)))
          case Failed => r.(phase := Ended(Aborted))
          case Cancelled => r.(phase := Ended(TimedOut))
  }

  function WaitersAfter(d: Desk, step: Step): map<string, nat> {
    if !Enabled(d, step) then d.waiters
    else
      match step
      case Forward(id) => d.waiters[id := |d.requests|]
      case Deliver(id) => Without(d.waiters, id)
      case Resume(n) => if d.requests[n].future.Cancelled? then Without(d.waiters, d.requests[n].id) else d.waiters
      case Stop => map[]
      case _ => d.waiters
  }

  lemma StepOnRequest(d: Desk, step: Step, n: nat)
    requires n < |d.requests|
    ensures n < |Next(d, step).requests| && Next(d, step).requests[n] == RequestAfter(d, step, n)
  {
    hide Without, Settle;
  }

  lemma StepOnWaiters(d: Desk, step: Step)
    ensures Next(d, step).waiters == WaitersAfter(d, step)
  {
    hide Without, Settle, Aborting;
  }

  lemma StepAdds(d: Desk, step: Step, n: nat)
    requires |d.requests| <= n < |Next(d, step).requests|
    ensures n == |d.requests| && step.Forward? && Enabled(d, step)
    ensures Next(d, step).requests[n] == Request(step.id, Writing, Pending)
  {
    hide Without, Settle, Aborting;
  }

  /** A result only ever settles a request of its own id. */
  ghost predicate OwnAnswer(r: Request) {
    && (r.future.Result? ==> r.future.id == r.id)
    && (r.phase.Ended? && r.phase.outcome.Answered? ==> r.phase.outcome.id == r.id)
  }

  ghost predicate Sound(d: Desk) {
    && |d.waiters| <= MAX_WAITERS
    && WaitersPoint(d)
    && forall n | 0 <= n < |d.requests| :: OwnAnswer(d.requests[n])
  }

  lemma WithoutIsSmaller(waiters: map<string, nat>, id: string)
    ensures |Without(waiters, id)| <= |waiters|
  {
    assert Without(waiters, id).Keys == waiters.Keys - {id};
    assert |Without(waiters, id)| == |Without(waiters, id).Keys| && |waiters| == |waiters.Keys|;
  }

  lemma OneMoreWaiter(waiters: map<string, nat>, id: string, n: nat)
    ensures |waiters[id := n]| <= |waiters| + 1
  {
    assert waiters[id := n].Keys == waiters.Keys + {id};
    assert |waiters[id := n]| == |waiters[id := n].Keys| && |waiters| == |waiters.Keys|;
  }

  lemma StepKeepsFewWaiters(d: Desk, step: Step)
    requires |d.waiters| <= MAX_WAITERS
    ensures |Next(d, step).waiters| <= MAX_WAITERS
  {
    hide Without, Settle, Aborting;
    if Enabled(d, step) {
      match step
      case Forward(id) => OneMoreWaiter(d.waiters, id, |d.requests|);
      case Deliver(id) => WithoutIsSmaller(d.waiters, id);
      case Resume(n) => WithoutIsSmaller(d.waiters, d.requests[n].id);
      case _ =>
    }
  }

  lemma StepKeepsPointing(d: Desk, step: Step)
    requires WaitersPoint(d)
    ensures WaitersPoint(Next(d, step))
  {
  }

  lemma StepKeepsOwnAnswer(d: Desk, step: Step, n: nat)
    requires WaitersPoint(d) && n < |Next(d, step).requests|
    requires n < |d.requests| ==> OwnAnswer(d.requests[n])
    ensures OwnAnswer(Next(d, step).requests[n])
  {
    if n < |d.requests| {
      StepOnRequest(d, step, n);
    } else {
      StepAdds(d, step, n);
    }
    hide Next;
  }

  lemma StepKeepsSound(d: Desk, step: Step)
    requires Sound(d)
    ensures Sound(Next(d, step))
  {
    hide Next, WaitersPoint, OwnAnswer;
    StepKeepsFewWaiters(d, step);
    StepKeepsPointing(d, step);
    forall n | 0 <= n < |Next(d, step).requests| ensures OwnAnswer(Next(d, step).requests[n]) {
      StepKeepsOwnAnswer(d, step, n);
    }
  }

  /** Never more than 32 waiters, and never an answer with somebody else's id. */
  lemma {:induction false} RunsAreSound(steps: seq<Step>)
    ensures Sound(After(steps))
  {
    if steps != [] {
      RunsAreSound(steps[..|steps| - 1]);
      StepKeepsSound(After(steps[..|steps| - 1]), steps[|steps| - 1]);
    }
  }

  /** A request keeps its id; a settled future and an ended request never change again. */
  ghost predicate Grows(d: Desk, d': Desk) {
    && |d.requests| <= |d'.requests|
    && forall n | 0 <= n < |d.requests| ::
         && d'.requests[n].id == d.requests[n].id
         && (!d.requests[n].future.Pending? ==> d'.requests[n].future == d.requests[n].future)
         && (d.requests[n].phase.Ended? ==> d'.requests[n].phase == d.requests[n].phase)
  }

  lemma StepGrows(d: Desk, step: Step)
    ensures Grows(d, Next(d, step))
  {
    RequestsStay(d, step);
    forall n | 0 <= n < |d.requests|
      ensures Next(d, step).requests[n].id == d.requests[n].id
      ensures !d.requests[n].future.Pending? ==> Next(d, step).requests[n].future == d.requests[n].future
      ensures d.requests[n].phase.Ended? ==> Next(d, step).requests[n].phase == d.requests[n].phase
    {
      StepOnRequest(d, step, n);
    }
    hide Next;
  }

  lemma RequestsStay(d: Desk, step: Step)
    ensures |d.requests| <= |Next(d, step).requests|
  {
  }

  /** Every forwarded request completes at most once. */
  lemma {:induction false} CompletesAtMostOnce(steps: seq<Step>, k: nat)
    requires k <= |steps|
    ensures Grows(After(steps[..k]), After(steps))
  {
    if k == |steps| {
      assert steps[..k] == steps;
    } else {
      var front := steps[..|steps| - 1];
      CompletesAtMostOnce(front, k);
      assert front[..k] == steps[..k];
      StepGrows(After(front), steps[|steps| - 1]);
    }
  }

  /** A result touches nothing but the request its waiter names, which bears its id. */
  lemma DeliveryTouchesOnlyItsOwn(steps: seq<Step>, id: string, n: nat)
    requires n < |After(steps).requests| && After(steps).requests[n].id != id
    ensures After(steps + [Deliver(id)]).requests[n] == After(steps).requests[n]
    ensures forall other | other != id ::
      (other in After(steps).waiters <==> other in After(steps + [Deliver(id)]).waiters)
      && (other in After(steps).waiters ==>
            After(steps + [Deliver(id)]).waiters[other] == After(steps).waiters[other])
  {
    RunsAreSound(steps);
    assert (steps + [Deliver(id)])[..|steps|] == steps;
  }

  /** A request that has ended by itself ended as its future was settled: with the result it
      was given, with the stop, or with its timeout. */
  ghost predicate EndsAsSettled(r: Request) {
    r.phase.Ended? ==>
      match r.phase.outcome
      case Answered(id) => r.future == Result(id)
      case TimedOut => r.future == Cancelled
      case Aborted => r.future == Failed
      case Dropped => true
  }

  lemma StepEndsAsSettled(d: Desk, step: Step, n: nat)
    requires n < |Next(d, step).requests|
    requires n < |d.requests| ==> EndsAsSettled(d.requests[n])
    ensures EndsAsSettled(Next(d, step).requests[n])
  {
    if n < |d.requests| {
      StepOnRequest(d, step, n);
    } else {
      StepAdds(d, step, n);
    }
    hide Next;
  }

  lemma {:induction false} RunsEndAsSettled(steps: seq<Step>, n: nat)
    requires n < |After(steps).requests|
    ensures EndsAsSettled(After(steps).requests[n])
  {
    var front, last := steps[..|steps| - 1], steps[|steps| - 1];
    AfterStep(steps);
    hide After, Next, EndsAsSettled;
    if n < |After(front).requests| {
      RunsEndAsSettled(front, n);
    }
    StepEndsAsSettled(After(front), last, n);
  }

  /** A waiting request whose future is settled ends, when it wakes up, with that. */
  lemma WakingEndsARequest(steps: seq<Step>, n: nat)
    requires n < |After(steps).requests|
    requires After(steps).requests[n].phase.Waiting? && !After(steps).requests[n].future.Pending?
    ensures n < |After(steps + [Resume(n)]).requests|
    ensures var r := After(steps + [Resume(n)]).requests[n];
      r.phase == match r.future
        case Result(id) => Ended(Answered(id))
        case Failed => Ended(Aborted)
        case Cancelled => Ended(TimedOut)
  {
    AfterStep(steps + [Resume(n)]);
    assert (steps + [Resume(n)])[..|steps|] == steps;
    StepOnRequest(After(steps), Resume(n), n);
    hide After, Next;
  }

  // ---------------------------------------------------------------------
  // Distinct ids in flight
  // ---------------------------------------------------------------------

  /** No request still in flight bears the id. */
  ghost predicate Unused(d: Desk, id: string) {
    forall n | 0 <= n < |d.requests| && IsLive(d.requests[n]) :: d.requests[n].id != id
  }

  /** Every forwarded request has an id no request in flight has. */
  ghost predicate DistinctInFlight(steps: seq<Step>) {
    forall k | 0 <= k < |steps| && steps[k].Forward? :: Unused(After(steps[..k]), steps[k].id)
  }

  /** The map names no other request than a live one for its id, and a live one still
      waiting for an answer is named. */
  ghost predicate Reachable(d: Desk, n: int)
    requires 0 <= n < |d.requests|
  {
    var r := d.requests[n];
    IsLive(r) ==>
      && (r.id in d.waiters ==> d.waiters[r.id] == n)
      && (r.future.Pending? ==> r.id in d.waiters)
  }

  ghost predicate Orderly(d: Desk) {
    && (forall n | 0 <= n < |d.requests| :: Reachable(d, n))
    && (forall m, n | 0 <= m < n < |d.requests| && IsLive(d.requests[m]) && IsLive(d.requests[n]) ::
          d.requests[m].id != d.requests[n].id)
  }

  lemma StepKeepsReachable(d: Desk, step: Step, n: nat)
    requires WaitersPoint(d) && Orderly(d)
    requires step.Forward? ==> Unused(d, step.id)
    requires n < |Next(d, step).requests|
    ensures Reachable(Next(d, step), n)
  {
    StepOnWaiters(d, step);
    if n < |d.requests| {
      StepOnRequest(d, step, n);
      assert Reachable(d, n);
      if IsLive(d.requests[n]) {
        OthersDiffer(d, step, n);
      }
      hide Orderly, Unused, WaitersPoint, Next;
      StaysReachable(d, step, n);
      hide RequestAfter, WaitersAfter;
    } else {
      StepAdds(d, step, n);
      hide Orderly, Unused, WaitersPoint, Next;
    }
  }

  lemma OthersDiffer(d: Desk, step: Step, n: nat)
    requires Orderly(d) && n < |d.requests| && IsLive(d.requests[n])
    requires step.Forward? ==> Unused(d, step.id)
    ensures step.Forward? ==> step.id != d.requests[n].id
    ensures step.Resume? && Enabled(d, step) && step.n != n ==> d.requests[step.n].id != d.requests[n].id
  {
    hide Reachable;
  }

  lemma StaysReachable(d: Desk, step: Step, n: nat)
    requires n < |d.requests| && Reachable(d, n)
    requires IsLive(d.requests[n]) && step.Forward? ==> step.id != d.requests[n].id
    requires IsLive(d.requests[n]) && step.Resume? && Enabled(d, step) && step.n != n ==>
      d.requests[step.n].id != d.requests[n].id
    ensures var r, waiters := RequestAfter(d, step, n), WaitersAfter(d, step);
      IsLive(r) ==>
        && (r.id in waiters ==> waiters[r.id] == n)
        && (r.future.Pending? ==> r.id in waiters)
  {
    var id := d.requests[n].id;
    assert id in d.waiters ==> d.waiters[id] in d.waiters.Values;
  }

  lemma StepKeepsDistinct(d: Desk, step: Step, m: nat, n: nat)
    requires Orderly(d)
    requires step.Forward? ==> Unused(d, step.id)
    requires m < n < |Next(d, step).requests|
    requires IsLive(Next(d, step).requests[m]) && IsLive(Next(d, step).requests[n])
    ensures Next(d, step).requests[m].id != Next(d, step).requests[n].id
  {
    if m < |d.requests| {
      StepOnRequest(d, step, m);
    } else {
      StepAdds(d, step, m);
    }
    if n < |d.requests| {
      StepOnRequest(d, step, n);
    } else {
      StepAdds(d, step, n);
    }
    hide Next;
  }

  lemma StepKeepsOrderly(d: Desk, step: Step)
    requires WaitersPoint(d) && Orderly(d)
    requires step.Forward? ==> Unused(d, step.id)
    ensures Orderly(Next(d, step))
  {
    hide Next, WaitersPoint, Reachable, Unused, IsLive;
    var d' := Next(d, step);
    forall n | 0 <= n < |d'.requests| ensures Reachable(d', n) {
      StepKeepsReachable(d, step, n);
    }
    forall m, n | 0 <= m < n < |d'.requests| && IsLive(d'.requests[m]) && IsLive(d'.requests[n])
      ensures d'.requests[m].id != d'.requests[n].id
    {
      StepKeepsDistinct(d, step, m, n);
    }
  }

  lemma {:induction false} RunsAreOrderly(steps: seq<Step>)
    requires DistinctInFlight(steps)
    ensures Orderly(After(steps))
  {
    if steps != [] {
      var front := steps[..|steps| - 1];
      assert forall k | 0 <= k < |front| :: front[..k] == steps[..k];
      RunsAreOrderly(front);
      RunsAreSound(front);
      StepKeepsOrderly(After(front), steps[|steps| - 1]);
    }
  }

  /** With distinct ids, a result completes the request that waits for it. */
  lemma ResultReachesItsRequest(steps: seq<Step>, n: nat)
    requires DistinctInFlight(steps)
    requires n < |After(steps).requests|
    requires IsLive(After(steps).requests[n]) && After(steps).requests[n].future.Pending?
    ensures var r := After(steps).requests[n];
      After(steps + [Deliver(r.id)]).requests[n].future == Result(r.id)
  {
    var r := After(steps).requests[n];
    RunsAreOrderly(steps);
    assert Reachable(After(steps), n);
    assert (steps + [Deliver(r.id)])[..|steps|] == steps;
  }

  /** With distinct ids, a timed-out request's clean-up removes nobody else's waiter. */
  lemma TimeoutRemovesOnlyItsOwn(steps: seq<Step>, n: nat, other: nat)
    requires DistinctInFlight(steps)
    requires n < |After(steps).requests| && other < |After(steps).requests| && n != other
    requires IsLive(After(steps).requests[n]) && IsLive(After(steps).requests[other])
    ensures var id := After(steps).requests[other].id;
      id in After(steps).waiters ==> id in After(steps + [Resume(n)]).waiters
  {
    RunsAreOrderly(steps);
    assert (steps + [Resume(n)])[..|steps|] == steps;
    hide After;
    ResumeRemovesOnlyItsOwn(After(steps), n, other);
  }

  lemma ResumeRemovesOnlyItsOwn(d: Desk, n: nat, other: nat)
    requires Orderly(d) && n < |d.requests| && other < |d.requests| && n != other
    requires IsLive(d.requests[n]) && IsLive(d.requests[other])
    ensures d.requests[other].id in d.waiters ==> d.requests[other].id in Next(d, Resume(n)).waiters
  {
    assert d.requests[n].id != d.requests[other].id;
  }

  // ---------------------------------------------------------------------
  // Any ids: who gets the answer
  // ---------------------------------------------------------------------

  /** The waiter of that id is request n's. */
  predicate IsNamed(d: Desk, id: string, n: nat) {
    id in d.waiters && d.waiters[id] == n
  }

  /** The step takes the id's waiter from whoever has it: the id is forwarded again, or a
      timed-out request that bears it cleans up. */
  predicate Displaces(d: Desk, step: Step, id: string) {
    && Enabled(d, step)
    && (|| step == Forward(id)
        || (step.Resume? && d.requests[step.n].id == id && d.requests[step.n].future.Cancelled?))
  }

  predicate IsOpen(r: Request) {
    IsLive(r) && r.future.Pending?
  }

  lemma StepKeepsName(d: Desk, step: Step, n: nat)
    requires WaitersPoint(d) && n < |d.requests| && n < |Next(d, step).requests|
    ensures var d', id := Next(d, step), d.requests[n].id;
      && (IsNamed(d', id, n) ==> IsNamed(d, id, n) && !Displaces(d, step, id))
      && (IsOpen(d'.requests[n]) ==> IsOpen(d.requests[n]))
      && (IsNamed(d, id, n) && !Displaces(d, step, id) && IsOpen(d'.requests[n]) ==> IsNamed(d', id, n))
  {
    var id := d.requests[n].id;
    assert id in d.waiters ==> d.waiters[id] in d.waiters.Values && d.waiters[id] < |d.requests|;
    assert step.Deliver? && step.id in d.waiters ==> d.requests[d.waiters[step.id]].id == step.id;
    StepOnRequest(d, step, n);
    StepOnWaiters(d, step);
    hide Next, WaitersPoint;
  }

  /** The j-th step takes the id's waiter. */
  predicate DisplacedAt(steps: seq<Step>, j: nat, id: string)
    requires j < |steps|
  {
    Displaces(After(steps[..j]), steps[j], id)
  }

  /** Since the k-th step nothing took the id's waiter away. */
  ghost predicate Undisplaced(steps: seq<Step>, k: nat, id: string) {
    forall j | k < j < |steps| :: !DisplacedAt(steps, j, id)
  }

  /** The request forwarded by the k-th step still has its waiter only if nothing displaced
      it, and loses it in no other way while it is open. */
  lemma {:induction false} NamedExactly(steps: seq<Step>, k: nat, id: string)
    requires k < |steps| && steps[k] == Forward(id) && Enabled(After(steps[..k]), steps[k])
    ensures var d, n := After(steps), |After(steps[..k]).requests|;
      && n < |d.requests| && d.requests[n].id == id
      && (IsNamed(d, id, n) ==> Undisplaced(steps, k, id))
      && (Undisplaced(steps, k, id) && IsOpen(d.requests[n]) ==> IsNamed(d, id, n))
  {
    var front, last := steps[..|steps| - 1], steps[|steps| - 1];
    if k == |front| {
      assert steps[..k] == front;
    } else {
      assert front[..k] == steps[..k] && front[k] == steps[k];
      NamedExactly(front, k, id);
      RunsAreSound(front);
      UndisplacedStep(steps, k, id);
      hide After, Next, Displaces, IsNamed, IsOpen, Undisplaced, Enabled;
      AfterStep(steps);
      StepGrows(After(front), last);
      StepKeepsName(After(front), last, |After(steps[..k]).requests|);
    }
  }

  lemma AfterStep(steps: seq<Step>)
    requires steps != []
    ensures After(steps) == Next(After(steps[..|steps| - 1]), steps[|steps| - 1])
  {
  }

  lemma UndisplacedStep(steps: seq<Step>, k: nat, id: string)
    requires k < |steps| - 1
    ensures var front := steps[..|steps| - 1];
      Undisplaced(steps, k, id) <==>
        Undisplaced(front, k, id) && !Displaces(After(front), steps[|front|], id)
  {
    var front := steps[..|steps| - 1];
    hide *;
    DisplacedLast(steps, id);
    forall j: nat | k < j < |front| ensures DisplacedAt(front, j, id) <==> DisplacedAt(steps, j, id) {
      DisplacedInFront(steps, j, id);
    }
    UndisplacedSplits(steps, front, k, id);
  }

  lemma UndisplacedSplits(steps: seq<Step>, front: seq<Step>, k: nat, id: string)
    requires k < |front| == |steps| - 1
    requires forall j: nat | k < j < |front| :: DisplacedAt(front, j, id) <==> DisplacedAt(steps, j, id)
    ensures Undisplaced(steps, k, id) <==> Undisplaced(front, k, id) && !DisplacedAt(steps, |front|, id)
  {
    hide DisplacedAt;
  }

  lemma DisplacedLast(steps: seq<Step>, id: string)
    requires steps != []
    ensures var front := steps[..|steps| - 1];
      DisplacedAt(steps, |front|, id) <==> Displaces(After(front), steps[|front|], id)
  {
    hide Displaces, After;
  }

  lemma DisplacedInFront(steps: seq<Step>, j: nat, id: string)
    requires j < |steps| - 1
    ensures DisplacedAt(steps[..|steps| - 1], j, id) <==> DisplacedAt(steps, j, id)
  {
    hide Displaces, After;
    assert steps[..|steps| - 1][..j] == steps[..j];
  }

  /** A result settles an open request exactly when the waiter of its id is that request's. */
  lemma DeliveryIsExact(d: Desk, n: nat)
    requires WaitersPoint(d) && n < |d.requests| && IsOpen(d.requests[n])
    ensures var id := d.requests[n].id;
      Next(d, Deliver(id)).requests[n].future == Result(id) <==> IsNamed(d, id, n)
  {
  }

  /**
   In every run, whatever ids are used: a result bearing an open request's id completes
   that request exactly when, since it was forwarded, its id was not forwarded again and no
   timed-out request of that id cleaned up.
   */
  lemma AnsweredExactly(steps: seq<Step>, k: nat, id: string)
    requires k < |steps| && steps[k] == Forward(id) && Enabled(After(steps[..k]), steps[k])
    ensures var n := |After(steps[..k]).requests|;
      && n < |After(steps).requests|
      && (IsOpen(After(steps).requests[n]) ==>
            n < |After(steps + [Deliver(id)]).requests| &&
            (After(steps + [Deliver(id)]).requests[n].future == Result(id) <==> Undisplaced(steps, k, id)))
  {
    var n := |After(steps[..k]).requests|;
    NamedExactly(steps, k, id);
    RunsAreSound(steps);
    AfterStep(steps + [Deliver(id)]);
    assert (steps + [Deliver(id)])[..|steps|] == steps;
    StepGrows(After(steps), Deliver(id));
    hide After, Next, IsNamed, IsOpen, Undisplaced;
    if IsOpen(After(steps).requests[n]) {
      DeliveryIsExact(After(steps), n);
    }
  }

  /** Forwarding one more request loses the answer to one that still has its waiter exactly
      when the new request takes the same id. */
  lemma ReuseLosesTheAnswer(steps: seq<Step>, n: nat, id: string)
    requires n < |After(steps).requests| && IsOpen(After(steps).requests[n])
    requires IsNamed(After(steps), After(steps).requests[n].id, n)
    requires |After(steps).waiters| < MAX_WAITERS
    ensures var d, own := After(steps), After(steps).requests[n].id;
      Next(Next(d, Forward(id)), Deliver(own)).requests[n].future == Result(own) <==> id != own
  {
    RunsAreSound(steps);
    hide After;
  }

  /** A shortest such run: the first request's answer goes to the second, and the first has
      no waiter left to be answered by. */
  lemma ReusedIdLosesAnAnswer(id: string)
    ensures var once := Next(EMPTY, Forward(id));
      var twice := Next(once, Forward(id));
      var answered := Next(twice, Deliver(id));
      && !Unused(once, id)
      && |answered.requests| == 2 && id !in answered.waiters
      && IsLive(answered.requests[0]) && answered.requests[0].future == Pending
      && answered.requests[1].future == Result(id)
  {
    var once := Next(EMPTY, Forward(id));
    OneMoreWaiter(map[], id, 0);
    assert IsLive(once.requests[0]) && once.requests[0].id == id;
    var twice := Next(once, Forward(id));
    assert twice.requests[..1] == once.requests && twice.waiters[id] == 1;
  }

  /** Another: the first request times out, its id is forwarded again before it wakes up, and
      its clean-up takes the second one's waiter. */
  lemma TimeoutTakesAnAnswer(id: string)
    ensures var steps := [Forward(id), Written(0), Expire(0), Forward(id), Resume(0)];
      var d := After(steps);
      && |d.requests| == 2 && IsOpen(d.requests[1]) && id !in d.waiters
      && After(steps + [Deliver(id)]) == d
  {
    var steps := [Forward(id), Written(0), Expire(0), Forward(id), Resume(0)];
    AfterFive(steps);
    AfterStep(steps + [Deliver(id)]);
    assert (steps + [Deliver(id)])[..5] == steps;
    hide After;
    OneMoreWaiter(map[], id, 0);
    var expired := Desk(map[id := 0], [Request(id, Waiting, Cancelled)]);
    assert Next(Next(Next(EMPTY, Forward(id)), Written(0)), Expire(0)) == expired;
    ForwardedAgain(id);
  }

  lemma ForwardedAgain(id: string)
    ensures var first := Request(id, Waiting, Cancelled);
      Next(Next(Desk(map[id := 0], [first]), Forward(id)), Resume(0))
        == Desk(map[], [first.(phase := Ended(TimedOut)), Request(id, Writing, Pending)])
  {
    OneMoreWaiter(map[], id, 0);
  }

  lemma AfterFive(steps: seq<Step>)
    requires |steps| == 5
    ensures After(steps)
      == Next(Next(Next(Next(Next(EMPTY, steps[0]), steps[1]), steps[2]), steps[3]), steps[4])
  {
    hide Next;
    assert steps[..5] == steps;
    assert steps[..5][..4] == steps[..4] && steps[..4][..3] == steps[..3] && steps[..3][..2] == steps[..2]
        && steps[..2][..1] == steps[..1] && steps[..1][..0] == [];
    AfterStep(steps[..5]);
    AfterStep(steps[..4]);
    AfterStep(steps[..3]);
    AfterStep(steps[..2]);
    AfterStep(steps[..1]);
  }

  /** A forwarded request whose write fails, or that is cancelled, ends and leaves its waiter
      behind; a result for it then settles nothing. */
  lemma DroppedLeavesItsWaiter(id: string)
    ensures var d := Next(Next(EMPTY, Forward(id)), Drop(0));
      && d.waiters == map[id := 0] && d.requests == [Request(id, Ended(Dropped), Pending)]
      && Next(d, Deliver(id)).requests[0].phase == Ended(Dropped)
  {
    OneMoreWaiter(map[], id, 0);
  }
}
