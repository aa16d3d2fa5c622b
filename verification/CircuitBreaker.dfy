/** The per-neighbour circuit breaker: three states, two counters and the time of the last transition.

    A call reads a monotone clock at most at two observable points: once to measure how long the breaker
    has been Open (`check`) and once for the last transition it makes (`stamp`). Both are in nanoseconds. */
module CircuitBreakers {
  import opened Bits

  const NS_PER_MS: nat := 1_000_000

  datatype CircuitState = Closed | Open | HalfOpen

  const SIGN64: nat := 0x8000_0000_0000_0000

  /** Consecutive failures that trip the breaker, a 32-bit word, and how long it stays Open, a 64-bit word. */
  datatype Config = Config(failureThreshold: nat, recoveryTimeoutMs: nat)

  /** A 64-bit word taken as a signed number, as the elapsed time is compared with it. */
  function Signed64(x: nat): int {
    if x < SIGN64 then x else x - 2 * SIGN64
  }

  datatype Breaker = Breaker(state: CircuitState, failures: nat, successes: nat, since: nat)

  datatype Reading = Reading(check: nat, stamp: nat)

  function Transition(state: CircuitState, r: Reading): Breaker {
    Breaker(state, 0, 0, r.stamp)
  }

  predicate TimeoutElapsed(c: Config, b: Breaker, r: Reading)
    requires b.since <= r.check
  {
    (r.check - b.since) / NS_PER_MS >= Signed64(c.recoveryTimeoutMs)
  }

  /** The state as `get_state` leaves it. */
  function Poll(c: Config, b: Breaker, r: Reading): Breaker
    requires b.since <= r.check
  {
    if b.state == Open && TimeoutElapsed(c, b, r) then Transition(HalfOpen, r) else b
  }

  /** What a poll finds, in nanoseconds: an Open breaker whose timeout has passed turns HalfOpen at the second reading,
      and nothing else changes. A timeout beyond the signed range has always passed. */
  lemma PollIs(c: Config, b: Breaker, r: Reading)
    requires b.since <= r.check && c.recoveryTimeoutMs < 0x1_0000_0000_0000_0000
    ensures Poll(c, b, r) ==
      if b.state == Open && (r.check - b.since >= c.recoveryTimeoutMs * 1_000_000
                             || c.recoveryTimeoutMs >= 0x8000_0000_0000_0000)
      then Breaker(HalfOpen, 0, 0, r.stamp) else b
  {
    WholeMilliseconds(r.check - b.since, c.recoveryTimeoutMs);
  }

  lemma WholeMilliseconds(ns: nat, ms: nat)
    ensures ns / NS_PER_MS >= ms <==> ns >= ms * 1_000_000
  {
  }

  /** A recorded success: the new state and whether the breaker closed. */
  function Succeed(c: Config, b: Breaker, r: Reading): (Breaker, bool)
    requires b.since <= r.check
  {
    var p := Poll(c, b, r);
    match p.state
    case HalfOpen =>
      var count := (p.successes + 1) % WORD32;
      if count >= 3 then (Transition(Closed, r), true) else (p.(successes := count), false)
    case Closed => (p.(failures := 0), false)
    case Open => (p, false)
  }

  /** A recorded failure: the new state and whether the breaker tripped. */
  function Fail(c: Config, b: Breaker, r: Reading): (Breaker, bool)
    requires b.since <= r.check
  {
    var p := Poll(c, b, r);
    match p.state
    case Closed =>
      var count := (p.failures + 1) % WORD32;
      if count >= c.failureThreshold then (Transition(Open, r), true) else (p.(failures := count), false)
    case HalfOpen => (Transition(Open, r), true)
    case Open => (p, false)
  }

  class CircuitBreaker {
    var state: CircuitState
    const failureThreshold: nat
    const recoveryTimeoutMs: nat
    var failureCount: nat
    var successCount: nat
    var lastStateChangeTime: nat

    /** The thresholds a router gives its link breakers. */
    constructor Default(now: nat)
      ensures View() == Breaker(Closed, 0, 0, now) && Settings() == Config(3, 5000)
    {
      state, failureThreshold, recoveryTimeoutMs := Closed, 3, 5000;
      failureCount, successCount, lastStateChangeTime := 0, 0, now;
    }

    constructor (failureThreshold: nat, recoveryTimeoutMs: nat, now: nat)
      ensures View() == Breaker(Closed, 0, 0, now) && Settings() == Config(failureThreshold, recoveryTimeoutMs)
    {
      this.state, this.failureThreshold, this.recoveryTimeoutMs := Closed, failureThreshold, recoveryTimeoutMs;
      failureCount, successCount, lastStateChangeTime := 0, 0, now;
    }

    ghost function View(): Breaker
      reads this
    {
      Breaker(state, failureCount, successCount, lastStateChangeTime)
    }

    ghost function Settings(): Config {
      Config(failureThreshold, recoveryTimeoutMs)
    }

    method TransitionTo(newState: CircuitState, r: Reading)
      modifies this
      ensures View() == Transition(newState, r)
    {
      state := newState;
      failureCount := 0;
      successCount := 0;
      lastStateChangeTime := r.stamp;
    }

    method GetState(r: Reading) returns (s: CircuitState)
      requires View().since <= r.check
      modifies this
      ensures View() == Poll(Settings(), old(View()), r) && s == View().state
    {
      if state == Open {
        var elapsed := (r.check - lastStateChangeTime) / NS_PER_MS;
        if elapsed >= Signed64(recoveryTimeoutMs) {
          TransitionTo(HalfOpen, r);
        }
      }
      return state;
    }

    method RecordSuccess(r: Reading) returns (closed: bool)
      requires View().since <= r.check
      modifies this
      ensures (View(), closed) == Succeed(Settings(), old(View()), r)
    {
      var _ := GetState(r);
      if state == HalfOpen {
        successCount := (successCount + 1) % WORD32;
        if successCount >= 3 {
          TransitionTo(Closed, r);
          return true;
        }
      } else if state == Closed {
        failureCount := 0;
      }
      return false;
    }

    method RecordFailure(r: Reading) returns (tripped: bool)
      requires View().since <= r.check
      modifies this
      ensures (View(), tripped) == Fail(Settings(), old(View()), r)
    {
      var _ := GetState(r);
      if state == Closed {
        failureCount := (failureCount + 1) % WORD32;
        if failureCount >= failureThreshold {
          TransitionTo(Open, r);
          return true;
        }
      } else if state == HalfOpen {
        TransitionTo(Open, r);
        return true;
      }
      return false;
    }
  }
}
