/**
 The connection manager. The class holds the lock-protected sections; `ConnectionRuns`
 lets clients, supervisors and loss events interleave them.
 Interfaces are numbered in the order they are built.
 */
module Connection {
  import opened Prelude

  /** The interface bookkeeping. closed and built record what was done to the radio
      library: which interfaces close() was called on, and how many were ever built. */
  datatype Link = Link(current: Option<nat>, stale: seq<nat>, closed: set<nat>, built: nat)

  /** The failure bookkeeping, and every event that ever touched it. */
  datatype Account = Account(failures: nat, slow: bool, hardError: bool, log: seq<Entry>)

  datatype Entry = Failure(threshold: nat) | Success | Cleared

  /** How one attempt of _open went. The first two fail before the lock is taken; in the
      last the interface was built and wiring up its subscriptions failed. */
  datatype Attempt = LibraryMissing | ImportFailed | Refused | Built | BuiltThenFailed

  const NO_LINK := Link(None, [], {}, 0)
  const NO_ACCOUNT := Account(0, false, false, [])

  function AllClosed(l: Link): Link {
    Link(None, [], l.closed + (set i | i in l.stale) + (if l.current.Some? then {l.current.value} else {}), l.built)
  }

  function Opened(l: Link, attempt: Attempt): Link {
    match attempt
    case LibraryMissing => l
    case ImportFailed => l
    case Refused => AllClosed(l)
    case _ => AllClosed(l).(current := Some(l.built), built := l.built + 1)
  }

  function Stashed(stale: seq<nat>, i: nat): seq<nat> {
    if i in stale then stale else stale + [i]
  }

  /** A loss event; the interface may be missing from it. */
  function Dropped(l: Link, lost: Option<nat>): Link {
    if lost.Some? && l.current.Some? && lost != l.current then
      l.(stale := Stashed(l.stale, lost.value))
    else
      var old' := if lost.Some? then lost else l.current;
      l.(stale := if old'.Some? then Stashed(l.stale, old'.value) else l.stale, current := None)
  }

  function Failed(a: Account, threshold: nat): Account {
    Account(a.failures + 1, a.slow || a.failures + 1 >= threshold, a.hardError, a.log + [Failure(threshold)])
  }

  function Succeeded(a: Account): Account {
    Account(0, false, false, a.log + [Success])
  }

  /** connect() and disconnect() both start the account afresh. */
  function ClearedAccount(a: Account): Account {
    Account(0, false, false, a.log + [Cleared])
  }

  /** What an attempt of connect() leaves in the account. */
  function Judged(a: Account, attempt: Attempt, threshold: nat): Account {
    match attempt
    case LibraryMissing => a.(hardError := true)
    case Built => Succeeded(a)
    case _ => Failed(a, threshold)
  }

  datatype State = Connected | Connecting | Disconnected

  class ConnectionManager {
    var iface: Option<nat>
    var staleIfaces: seq<nat>
    var consecutiveFailures: nat
    var slowRetry: bool
    var hardError: bool
    var wantConnected: bool
    // What the radio library has handed out, and what close() was called on.
    var built: nat
    ghost var closed: set<nat>
    ghost var log: seq<Entry>

    ghost function TheLink(): Link
      reads this
    {
      Link(iface, staleIfaces, closed, built)
    }

    ghost function TheAccount(): Account
      reads this
    {
      Account(consecutiveFailures, slowRetry, hardError, log)
    }

    constructor ()
      ensures TheLink() == NO_LINK && TheAccount() == NO_ACCOUNT && !wantConnected
    {
      iface, staleIfaces, closed, built := None, [], {}, 0;
      consecutiveFailures, slowRetry, hardError, log := 0, false, false, [];
      wantConnected := false;
    }

    /** _close_locked: close() on the current interface and on every stale one. */
    method CloseLocked()
      modifies this`iface, this`staleIfaces, this`closed
      ensures TheLink() == AllClosed(old(TheLink()))
    {
      if iface.Some? {
        closed := closed + {iface.value};
      }
      for n := 0 to |staleIfaces|
        invariant closed == old(closed) + (if iface.Some? then {iface.value} else {}) + (set i | i in staleIfaces[..n])
        invariant iface == old(iface) && staleIfaces == old(staleIfaces)
      {
        assert staleIfaces[..n + 1] == staleIfaces[..n] + [staleIfaces[n]];
        closed := closed + {staleIfaces[n]};
      }
      assert staleIfaces[..|staleIfaces|] == staleIfaces;
      staleIfaces, iface := [], None;
    }

    /** The lock-held part of _open, for an attempt that got that far. */
    method OpenLocked(attempt: Attempt)
      requires attempt.Refused? || attempt.Built? || attempt.BuiltThenFailed?
      modifies this`iface, this`staleIfaces, this`closed, this`built
      ensures TheLink() == Opened(old(TheLink()), attempt)
    {
      CloseLocked();
      if attempt != Refused {
        iface := Some(built);
        built := built + 1;
      }
    }

    method OnConnectionLost(lost: Option<nat>)
      modifies this`iface, this`staleIfaces
      ensures TheLink() == Dropped(old(TheLink()), lost)
    {
      if lost.Some? && iface.Some? && lost != iface {
        if lost.value !in staleIfaces {
          staleIfaces := staleIfaces + [lost.value];
        }
        return;
      }
      var gone := if lost.Some? then lost else iface;
      if gone.Some? && gone.value !in staleIfaces {
        staleIfaces := staleIfaces + [gone.value];
      }
      iface := None;
    }

    method RecordFailure(threshold: nat) returns (count: nat)
      modifies this`consecutiveFailures, this`slowRetry, this`log
      ensures TheAccount() == Failed(old(TheAccount()), threshold)
      ensures count == consecutiveFailures
    {
      consecutiveFailures := consecutiveFailures + 1;
      count := consecutiveFailures;
      if count >= threshold && !slowRetry {
        slowRetry := true;
      }
      log := log + [Failure(threshold)];
    }

    method RecordSuccess()
      modifies this`consecutiveFailures, this`slowRetry, this`hardError, this`log
      ensures TheAccount() == Succeeded(old(TheAccount()))
    {
      consecutiveFailures, slowRetry, hardError := 0, false, false;
      log := log + [Success];
    }

    /** The lock-held part of disconnect. */
    method DisconnectLocked()
      modifies this
      ensures TheLink() == AllClosed(old(TheLink()))
      ensures TheAccount() == ClearedAccount(old(TheAccount()))
      ensures wantConnected == old(wantConnected)
    {
      CloseLocked();
      consecutiveFailures, slowRetry, hardError := 0, false, false;
      log := log + [Cleared];
    }

    /** connect() with nobody in between, up to the start of a supervisor: the account is
        cleared before the attempt, and then says how the attempt went. */
    method Connect(attempt: Attempt, threshold: nat) returns (raised: bool)
      modifies this
      ensures wantConnected && (raised <==> attempt.LibraryMissing?)
      ensures TheLink() == Opened(old(TheLink()), attempt)
      ensures TheAccount() == Judged(ClearedAccount(old(TheAccount())), attempt, threshold)
      ensures attempt.Built? ==> iface == Some(old(built)) && !slowRetry && consecutiveFailures == 0
      ensures !attempt.Built? && !raised ==> consecutiveFailures == 1 && (slowRetry <==> threshold <= 1)
    {
      wantConnected := true;
      consecutiveFailures, slowRetry, hardError := 0, false, false;
      log := log + [Cleared];
      if attempt.LibraryMissing? {
        hardError := true;
        return true;
      }
      if !attempt.ImportFailed? {
        OpenLocked(attempt);
      }
      if attempt.Built? {
        RecordSuccess();
      } else {
        var count := RecordFailure(threshold);
      }
      raised := false;
    }

    /** state(), read while nobody else moves. */
    method CurrentState() returns (s: State)
      ensures s == Connected <==> iface.Some?
      ensures s == Connecting <==> iface.None? && wantConnected && !hardError && !slowRetry
    {
      if iface.Some? {
        return Connected;
      }
      if !wantConnected || hardError || slowRetry {
        return Disconnected;
      }
      s := Connecting;
    }
  }

  // ---------------------------------------------------------------------
  // Interfaces
  // ---------------------------------------------------------------------

  /**
   At most one interface is open: all but the newest were passed to close(), and the
   newest is current, or stale, or was passed to close() too.
   */
  ghost predicate Tidy(l: Link) {
    && (forall i | 0 <= i < l.built - 1 :: i in l.closed)
    && (l.built > 0 ==> l.current == Some(l.built - 1) || l.built - 1 in l.stale || l.built - 1 in l.closed)
    && (l.current.Some? ==>
          l.current.value == l.built - 1 && l.current.value !in l.stale && l.current.value !in l.closed)
    && (forall i | i in l.closed :: i < l.built)
    && (forall i | i in l.stale :: i < l.built)
  }

  lemma OpeningKeepsTidy(l: Link, attempt: Attempt)
    requires Tidy(l)
    ensures Tidy(Opened(l, attempt))
    ensures Opened(l, attempt).built > l.built ==>
      forall i | 0 <= i < l.built :: i in Opened(l, attempt).closed
  {
  }

  lemma DroppingKeepsTidy(l: Link, lost: Option<nat>)
    requires Tidy(l) && (lost.Some? ==> lost.value < l.built)
    ensures Tidy(Dropped(l, lost))
    ensures lost.Some? && l.current.Some? && lost != l.current ==> Dropped(l, lost).current == l.current
  {
  }

  // ---------------------------------------------------------------------
  // Failures
  // ---------------------------------------------------------------------

  /** Recorded failures since the last success, connect or disconnect. */
  function TrailingFailures(log: seq<Entry>): nat {
    if log != [] && log[|log| - 1].Failure? then 1 + TrailingFailures(log[..|log| - 1]) else 0
  }

  /** Some failure of the trailing run came when the run was as long as its threshold. */
  ghost predicate ReachedThreshold(log: seq<Entry>) {
    log != [] && log[|log| - 1].Failure?
    && (TrailingFailures(log) >= log[|log| - 1].threshold || ReachedThreshold(log[..|log| - 1]))
  }

  /** The counters say what the log of events says. */
  ghost predicate Honest(a: Account) {
    a.failures == TrailingFailures(a.log) && (a.slow <==> ReachedThreshold(a.log))
  }

  lemma AccountingStaysHonest(a: Account, threshold: nat)
    requires Honest(a)
    ensures Honest(Failed(a, threshold)) && Honest(Succeeded(a)) && Honest(ClearedAccount(a))
  {
    assert (a.log + [Failure(threshold)])[..|a.log|] == a.log;
  }

  /** With one threshold throughout, of at least one, the slow cadence is on exactly when
      the run of failures has reached it. */
  lemma {:induction false} FixedThreshold(log: seq<Entry>, threshold: nat)
    requires threshold >= 1
    requires forall k | 0 <= k < |log| && log[k].Failure? :: log[k].threshold == threshold
    ensures ReachedThreshold(log) <==> TrailingFailures(log) >= threshold
  {
    if log != [] && log[|log| - 1].Failure? {
      FixedThreshold(log[..|log| - 1], threshold);
    }
  }
}
