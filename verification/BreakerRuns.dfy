/** What a circuit breaker promises over whole runs of calls under a monotone clock. */
module BreakerRuns {
  import opened Bits
  import opened Common
  import opened CircuitBreakers

  datatype Call = PollState | RecordSuccess | RecordFailure

  datatype Event = Event(call: Call, at: Reading)

  /** The breaker after a call and what the call returned (false for a poll). */
  function Apply(c: Config, b: Breaker, e: Event): (Breaker, bool)
    requires b.since <= e.at.check
  {
    match e.call
    case PollState => (Poll(c, b, e.at), false)
    case RecordSuccess => Succeed(c, b, e.at)
    case RecordFailure => Fail(c, b, e.at)
  }

  /** The last clock reading of a run that starts at `start`. */
  function Now(start: nat, run: seq<Event>): nat {
    if run == [] then start else Last(run).at.stamp
  }

  /** The readings of a run never go back. */
  ghost predicate Monotone(start: nat, run: seq<Event>) {
    run == [] || (Monotone(start, Front(run)) && Now(start, Front(run)) <= Last(run).at.check <= Last(run).at.stamp)
  }

  /** The breaker after a run of calls on a new breaker. */
  function After(c: Config, start: nat, run: seq<Event>): (b: Breaker)
    requires Monotone(start, run)
    ensures b.since <= Now(start, run)
  {
    if run == [] then Breaker(Closed, 0, 0, start)
    else Apply(c, After(c, start, Front(run)), Last(run)).0
  }

  /** The state in which the last call of a run found the breaker, timeout taken into account. */
  function Found(c: Config, start: nat, run: seq<Event>): CircuitState
    requires run != [] && Monotone(start, run)
  {
    Poll(c, After(c, start, Front(run)), Last(run).at).state
  }

  /** What a call finds, in nanoseconds. */
  lemma FoundIs(c: Config, start: nat, run: seq<Event>)
    requires run != [] && Monotone(start, run) && c.recoveryTimeoutMs < 0x8000_0000_0000_0000
    ensures var b, at := After(c, start, Front(run)), Last(run).at;
      Found(c, start, run) ==
        if b.state == Open && at.check - b.since >= c.recoveryTimeoutMs * 1_000_000 then HalfOpen else b.state
  {
    PollIs(c, After(c, start, Front(run)), Last(run).at);
  }

  predicate Returned(c: Config, start: nat, run: seq<Event>)
    requires run != [] && Monotone(start, run)
  {
    Apply(c, After(c, start, Front(run)), Last(run)).1
  }

  /** The last call of the run put the breaker into the Open state. */
  predicate Trips(c: Config, start: nat, run: seq<Event>)
    requires run != [] && Monotone(start, run)
  {
    Last(run).call == RecordFailure && Returned(c, start, run)
  }

  /** A failure that finds the breaker HalfOpen opens it again, at once and whatever successes it has counted. */
  lemma FailureReopens(c: Config, start: nat, run: seq<Event>)
    requires run != [] && Monotone(start, run)
    requires Last(run).call == RecordFailure && Found(c, start, run) == HalfOpen
    ensures Trips(c, start, run) && After(c, start, run) == Breaker(Open, 0, 0, Last(run).at.stamp)
  {
  }

  /** A call that finds the breaker Open changes nothing and returns false. */
  lemma OpenIgnoresCalls(c: Config, start: nat, run: seq<Event>)
    requires run != [] && Monotone(start, run) && Found(c, start, run) == Open
    ensures After(c, start, run) == After(c, start, Front(run)) && !Returned(c, start, run)
  {
  }

  /** Where a call leads from the state it finds. It returns true exactly when it changes that state, and the time of
      the last change moves, and the counters are cleared, exactly when the stored state changes or an Open breaker
      recovers and trips again. */
  lemma CallLeadsTo(c: Config, start: nat, run: seq<Event>)
    requires run != [] && Monotone(start, run)
    ensures var before, found, after := After(c, start, Front(run)), Found(c, start, run), After(c, start, run);
      && (Returned(c, start, run) <==> after.state != found)
      && (Last(run).call == PollState ==> after.state == found)
      && (found == Closed ==> after.state in (if Last(run).call == RecordFailure then {Closed, Open} else {Closed}))
      && (found == HalfOpen ==>
            after.state in
              (match Last(run).call
               case PollState => {HalfOpen}
               case RecordSuccess => {HalfOpen, Closed}
               case RecordFailure => {Open}))
      && (after.state == found == before.state ==> after.since == before.since)
      && (after.state != found || found != before.state ==> after.since == Last(run).at.stamp)
      && (after.state != found ==> after.failures == 0 && after.successes == 0)
  {
  }

  /** When the breaker entered the Open state during a run. */
  function TripTimes(c: Config, start: nat, run: seq<Event>): seq<nat>
    requires Monotone(start, run)
  {
    if run == [] then []
    else TripTimes(c, start, Front(run)) + (if Trips(c, start, run) then [Last(run).at.stamp] else [])
  }

  ghost predicate Spaced(times: seq<nat>, gap: nat) {
    forall i :: 0 < i < |times| ==> times[i] >= times[i - 1] + gap
  }

  /** The recovery timeout in nanoseconds. */
  function Gap(c: Config): nat {
    c.recoveryTimeoutMs * NS_PER_MS
  }

  lemma TimeoutIsLong(c: Config, b: Breaker, r: Reading)
    requires b.since <= r.check && TimeoutElapsed(c, b, r) && c.recoveryTimeoutMs < SIGN64
    ensures b.since + Gap(c) <= r.check
  {
    var d := r.check - b.since;
    assert d / NS_PER_MS * NS_PER_MS <= d;
    assert d / NS_PER_MS * NS_PER_MS >= c.recoveryTimeoutMs * NS_PER_MS;
  }

  /** What is known at time `now` of a breaker that last entered the Open state at `trip`. */
  ghost predicate SinceTrip(c: Config, b: Breaker, trip: nat, now: nat) {
    trip <= now && if b.state == Open then b.since == trip else trip + Gap(c) <= now
  }

  lemma StepSinceTrip(c: Config, b: Breaker, trip: nat, now: nat, e: Event)
    requires SinceTrip(c, b, trip, now) && b.since <= now <= e.at.check <= e.at.stamp && c.recoveryTimeoutMs < SIGN64
    ensures var (b', tripped) := Apply(c, b, e);
      if e.call == RecordFailure && tripped then trip + Gap(c) <= e.at.stamp && SinceTrip(c, b', e.at.stamp, e.at.stamp)
      else SinceTrip(c, b', trip, e.at.stamp)
  {
    if b.state == Open && TimeoutElapsed(c, b, e.at) {
      TimeoutIsLong(c, b, e.at);
    }
    hide Gap;
  }

  /** Entries into the Open state are at least the recovery timeout apart. */
  lemma {:induction false} TripsAreSpaced(c: Config, start: nat, run: seq<Event>)
    requires Monotone(start, run) && c.recoveryTimeoutMs < 0x8000_0000_0000_0000
    ensures Spaced(TripTimes(c, start, run), Gap(c))
    ensures TripTimes(c, start, run) == [] ==> After(c, start, run).state == Closed
    ensures TripTimes(c, start, run) != [] ==>
      SinceTrip(c, After(c, start, run), Last(TripTimes(c, start, run)), Now(start, run))
  {
    if run != [] {
      TripsAreSpaced(c, start, Front(run));
      var times := TripTimes(c, start, Front(run));
      if times != [] {
        hide Succeed, Fail, Poll;
        StepSinceTrip(c, After(c, start, Front(run)), Last(times), Now(start, Front(run)), Last(run));
      }
    }
  }

  /** A run of `d` nanoseconds trips the breaker at most d / timeout + 1 times. */
  lemma TripCountBound(c: Config, start: nat, run: seq<Event>)
    requires Monotone(start, run) && TripTimes(c, start, run) != [] && c.recoveryTimeoutMs < 0x8000_0000_0000_0000
    ensures (|TripTimes(c, start, run)| - 1) * Gap(c) <= Now(start, run) - start
  {
    var times, gap := TripTimes(c, start, run), Gap(c);
    TripsAreSpaced(c, start, run);
    SpacedSpan(times, gap);
    TripsAfterStart(c, start, run);
    assert times[0] in times;
  }

  /** Failures recorded one after the other without the clock advancing. */
  function Burst(n: nat): (run: seq<Event>)
    ensures |run| == n
  {
    seq(n, _ => Event(RecordFailure, Reading(0, 0)))
  }

  /** The failures a Closed breaker takes to trip. */
  function TripsAt(c: Config): (n: nat)
    ensures n >= 1
  {
    if c.failureThreshold == 0 then 1 else c.failureThreshold
  }

  lemma {:induction false} BurstStaysClosed(c: Config, n: nat)
    requires n < TripsAt(c) && c.failureThreshold < WORD32
    ensures Monotone(0, Burst(n)) && After(c, 0, Burst(n)) == Breaker(Closed, n, 0, 0) &&
      TripTimes(c, 0, Burst(n)) == []
  {
    if n > 0 {
      BurstStaysClosed(c, n - 1);
      assert Front(Burst(n)) == Burst(n - 1);
    }
  }

  /** A timeout beyond the signed range counts as negative and keeps the breaker Open for no time at all: one failure
      more than it takes to trip it trips it twice at the same instant. */
  lemma HugeTimeoutIsNone(c: Config)
    requires c.failureThreshold < WORD32 && SIGN64 <= c.recoveryTimeoutMs < 2 * SIGN64
    ensures Monotone(0, Burst(TripsAt(c) + 1)) && TripTimes(c, 0, Burst(TripsAt(c) + 1)) == [0, 0]
  {
    var n := TripsAt(c);
    BurstStaysClosed(c, n - 1);
    var tripped, again := Burst(n), Burst(n + 1);
    assert Front(tripped) == Burst(n - 1) && Front(again) == tripped;
    assert After(c, 0, tripped) == Breaker(Open, 0, 0, 0) && TripTimes(c, 0, tripped) == [0];
    assert Poll(c, After(c, 0, tripped), Last(again).at).state == HalfOpen;
    assert Trips(c, 0, again);
  }

  ghost predicate AlwaysSpaced(c: Config) {
    forall start, run :: Monotone(start, run) ==> Spaced(TripTimes(c, start, run), Gap(c))
  }

  /** The breaker keeps its recovery timeout on every run exactly when the timeout fits into a signed word. */
  lemma SpacedIffTimeoutFits(c: Config)
    requires c.failureThreshold < WORD32 && c.recoveryTimeoutMs < 0x1_0000_0000_0000_0000
    ensures AlwaysSpaced(c) <==> c.recoveryTimeoutMs < 0x8000_0000_0000_0000
  {
    if c.recoveryTimeoutMs < SIGN64 {
      forall start, run | Monotone(start, run)
        ensures Spaced(TripTimes(c, start, run), Gap(c))
      {
        TripsAreSpaced(c, start, run);
      }
    } else {
      HugeTimeoutIsNone(c);
      var times := TripTimes(c, 0, Burst(TripsAt(c) + 1));
      assert times[1] < times[1 - 1] + Gap(c);
    }
  }

  lemma {:induction false} SpacedSpan(times: seq<nat>, gap: nat)
    requires times != [] && Spaced(times, gap)
    ensures times[0] + (|times| - 1) * gap <= Last(times)
  {
    if |times| > 1 {
      var front := Front(times);
      assert forall i :: 0 <= i < |front| ==> front[i] == times[i];
      SpacedSpan(front, gap);
      assert (|times| - 1) * gap == (|front| - 1) * gap + gap;
    }
  }

  lemma {:induction false} TripsAfterStart(c: Config, start: nat, run: seq<Event>)
    requires Monotone(start, run)
    ensures start <= Now(start, run) && forall t :: t in TripTimes(c, start, run) ==> start <= t
  {
    if run != [] {
      TripsAfterStart(c, start, Front(run));
    }
  }

  /** Every call from position `m` on found the breaker in `state`, none was an `excluded` call and none changed the
      state on its own account. */
  ghost predicate Unbroken(c: Config, start: nat, run: seq<Event>, m: nat, state: CircuitState, excluded: Call)
    requires Monotone(start, run)
    decreases run
  {
    m == |run| ||
    (m < |run| && Found(c, start, run) == state && Last(run).call != excluded && !Returned(c, start, run)
     && Unbroken(c, start, Front(run), m, state, excluded))
  }

  /** The calls of one kind from position `m` on. */
  function Count(run: seq<Event>, m: nat, call: Call): nat {
    if |run| <= m then 0
    else Count(Front(run), m, call) + (if Last(run).call == call then 1 else 0)
  }

  /** A call goes on with a stretch of the run before it, and ends with one that starts after it. */
  lemma StretchGoesOn(c: Config, start: nat, run: seq<Event>, m: nat, state: CircuitState, excluded: Call)
    requires run != [] && Monotone(start, run) && m <= |run|
    ensures m == |run| ==> forall call :: Count(run, m, call) == 0
    ensures m < |run| ==>
      && (Unbroken(c, start, run, m, state, excluded) <==>
            Found(c, start, run) == state && Last(run).call != excluded && !Returned(c, start, run)
            && Unbroken(c, start, Front(run), m, state, excluded))
      && forall call :: Count(run, m, call) == Count(Front(run), m, call) + (if Last(run).call == call then 1 else 0)
  {
    hide Found, Returned;
  }

  /** What a poll or a failure does to a breaker that it finds Closed and leaves so. */
  lemma FailureNext(c: Config, start: nat, run: seq<Event>)
    requires run != [] && Monotone(start, run) && c.failureThreshold < WORD32
    requires Found(c, start, run) == Closed && Last(run).call != RecordSuccess && After(c, start, run).state == Closed
    ensures var before, n := After(c, start, Front(run)), After(c, start, run).failures;
      && before.state == Closed && !Returned(c, start, run)
      && (before.failures == 0 || before.failures < c.failureThreshold ==>
            && n == before.failures + (if Last(run).call == RecordFailure then 1 else 0)
            && (n == 0 || n < c.failureThreshold))
  {
    hide TimeoutElapsed, Signed64;
  }

  /** While Closed, the failure counter is the largest number of failures in an unbroken stretch up to now. */
  lemma {:induction false} FailureCounter(c: Config, start: nat, run: seq<Event>)
    requires Monotone(start, run) && After(c, start, run).state == Closed && c.failureThreshold < WORD32
    ensures var n := After(c, start, run).failures;
      && (n == 0 || n < c.failureThreshold)
      && (exists m :: 0 <= m <= |run| &&
            Unbroken(c, start, run, m, Closed, RecordSuccess) && Count(run, m, RecordFailure) == n)
      && (forall m :: 0 <= m <= |run| && Unbroken(c, start, run, m, Closed, RecordSuccess) ==>
        Count(run, m, RecordFailure) <= n)
  {
    hide TimeoutElapsed, Signed64;
    if run == [] {
      assert Unbroken(c, start, run, 0, Closed, RecordSuccess);
    } else {
      var before := After(c, start, Front(run));
      var n := After(c, start, run).failures;
      if Found(c, start, run) == Closed && Last(run).call != RecordSuccess {
        FailureCounter(c, start, Front(run));
        FailureNext(c, start, run);
        hide After, Found, Returned, Unbroken, Count;
        var m :| 0 <= m <= |run| - 1 && Unbroken(c, start, Front(run), m, Closed, RecordSuccess)
          && Count(Front(run), m, RecordFailure) == before.failures;
        StretchGoesOn(c, start, run, m, Closed, RecordSuccess);
        assert Unbroken(c, start, run, m, Closed, RecordSuccess) && Count(run, m, RecordFailure) == n;
        forall k | 0 <= k <= |run| && Unbroken(c, start, run, k, Closed, RecordSuccess)
          ensures Count(run, k, RecordFailure) <= n
        {
          StretchGoesOn(c, start, run, k, Closed, RecordSuccess);
        }
      } else {
        assert Unbroken(c, start, run, |run|, Closed, RecordSuccess);
      }
    }
  }

  /** A failure recorded on a Closed breaker trips it exactly when it completes max(1, threshold) failures recorded
      in a row, with no success between, while the breaker stayed Closed. */
  lemma TripNeedsFailuresInARow(c: Config, start: nat, run: seq<Event>)
    requires run != [] && Monotone(start, run) && c.failureThreshold < WORD32
    requires Last(run).call == RecordFailure && Found(c, start, run) == Closed
    ensures Trips(c, start, run) <==>
      exists m :: 0 <= m < |run| && Unbroken(c, start, Front(run), m, Closed, RecordSuccess)
        && Count(run, m, RecordFailure) == TripsAt(c)
  {
    hide TimeoutElapsed, Signed64;
    var front := Front(run);
    FailureCounter(c, start, front);
    var n := After(c, start, front).failures;
    forall m | 0 <= m < |run|
      ensures Count(run, m, RecordFailure) == Count(front, m, RecordFailure) + 1
    {
    }
    if Trips(c, start, run) {
      var m :| 0 <= m <= |front| && Unbroken(c, start, front, m, Closed, RecordSuccess) &&
        Count(front, m, RecordFailure) == n;
      assert Count(run, m, RecordFailure) == TripsAt(c);
    }
  }

  /** While HalfOpen, the success counter is the largest number of successes in an unbroken stretch up to now. */
  lemma {:induction false} SuccessCounter(c: Config, start: nat, run: seq<Event>)
    requires Monotone(start, run) && After(c, start, run).state == HalfOpen
    ensures var n := After(c, start, run).successes;
      && n < 3
      && (exists m :: 0 <= m <= |run| &&
            Unbroken(c, start, run, m, HalfOpen, RecordFailure) && Count(run, m, RecordSuccess) == n)
      && (forall m :: 0 <= m <= |run| && Unbroken(c, start, run, m, HalfOpen, RecordFailure) ==>
        Count(run, m, RecordSuccess) <= n)
  {
    hide TimeoutElapsed, Signed64;
    var front := Front(run);
    var before, n := After(c, start, front), After(c, start, run).successes;
    if before.state == HalfOpen {
      SuccessCounter(c, start, front);
      var m :| 0 <= m <= |front| && Unbroken(c, start, front, m, HalfOpen, RecordFailure)
        && Count(front, m, RecordSuccess) == before.successes;
      assert Unbroken(c, start, run, m, HalfOpen, RecordFailure) && Count(run, m, RecordSuccess) == n;
    } else {
      assert Unbroken(c, start, front, |front|, HalfOpen, RecordFailure);
      assert Unbroken(c, start, run, |front|, HalfOpen, RecordFailure) && Count(run, |front|, RecordSuccess) == n;
    }
  }

  /** A success that finds the breaker HalfOpen closes it exactly when it completes three recorded in a row, with
      no failure between, while the breaker stayed HalfOpen. */
  lemma CloseNeedsSuccessesInARow(c: Config, start: nat, run: seq<Event>)
    requires run != [] && Monotone(start, run)
    requires Last(run).call == RecordSuccess && Found(c, start, run) == HalfOpen
    ensures After(c, start, run).state == Closed <==>
      exists m :: 0 <= m < |run| && Unbroken(c, start, Front(run), m, HalfOpen, RecordFailure)
        && Count(run, m, RecordSuccess) == 3
  {
    hide TimeoutElapsed, Signed64;
    var front := Front(run);
    forall m | 0 <= m < |run|
      ensures Count(run, m, RecordSuccess) == Count(front, m, RecordSuccess) + 1
    {
    }
    if After(c, start, front).state == HalfOpen {
      SuccessCounter(c, start, front);
      var n := After(c, start, front).successes;
      var m :| 0 <= m <= |front| && Unbroken(c, start, front, m, HalfOpen, RecordFailure) &&
        Count(front, m, RecordSuccess) == n;
      assert Count(run, m, RecordSuccess) == n + 1;
    } else {
      forall m | 0 <= m < |run| && Unbroken(c, start, front, m, HalfOpen, RecordFailure)
        ensures Count(run, m, RecordSuccess) == 1
      {
        assert m == |front|;
      }
    }
  }
}
