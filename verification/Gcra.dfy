/** The rate limiter as a sequential rule, what the rule admits, and its leaky-bucket form. */
module Gcra {

  import opened Bits
  import opened Common

  const SECOND: real := 1_000_000_000.0

  /** Emission interval and tolerance in nanoseconds. */
  datatype Limits = Limits(interval: nat, tolerance: nat)

  /** The interval is the largest whole number of nanoseconds at which `rate` intervals fit into a second; the tolerance
      is the largest whole number within `burst` - 1 intervals. */
  ghost predicate Meet(l: Limits, rate: real, burst: real) {
    && l.interval as real * rate <= SECOND < (l.interval + 1) as real * rate
    && l.tolerance as real <= (burst - 1.0) * l.interval as real < (l.tolerance + 1) as real
  }

  /** The limits the constructor derives from a rate per second and a burst capacity. */
  function LimitsFor(rate: real, burst: real): (l: Limits)
    requires rate > 0.0 && burst >= 1.0
    ensures Meet(l, rate, burst)
  {
    var exact := SECOND / rate;
    var t := exact.Floor;
    QuotientFloor(rate, exact, t);
    ProductNonNegative(burst - 1.0, t as real);
    Limits(t, ((burst - 1.0) * t as real).Floor)
  }

  lemma QuotientFloor(rate: real, exact: real, t: int)
    requires rate > 0.0 && exact == SECOND / rate && t == exact.Floor
    ensures t >= 0 && t as real * rate <= SECOND < (t + 1) as real * rate
  {
    assert exact * rate == SECOND;
    ProductGrows(t as real, exact, rate);
    ProductGrowsStrictly(exact, (t + 1) as real, rate);
  }

  lemma ProductNonNegative(a: real, b: real)
    requires a >= 0.0 && b >= 0.0
    ensures a * b >= 0.0
  {
  }

  lemma ProductGrows(a: real, b: real, c: real)
    requires a <= b && c >= 0.0
    ensures a * c <= b * c
  {
  }

  lemma ProductGrowsStrictly(a: real, b: real, c: real)
    requires a < b && c > 0.0
    ensures a * c < b * c
  {
  }

  function Max(a: nat, b: nat): nat {
    if a > b then a else b
  }

  /** An arrival at `t` is turned away when the theoretical arrival time is further ahead than the tolerance. */
  predicate Rejects(l: Limits, tat: nat, t: nat) {
    tat > t && tat - t > l.tolerance
  }

  /** The theoretical arrival time after an admission at `t`. */
  function Advance(l: Limits, tat: nat, t: nat): nat {
    Max(t, tat) + l.interval
  }

  /** The theoretical arrival time after admissions at the given times, in that order. */
  function Tat(l: Limits, admitted: seq<nat>): nat {
    if admitted == [] then 0 else Advance(l, Tat(l, Front(admitted)), admitted[|admitted| - 1])
  }

  /** What admission i still claims once all later ones are added: its time and one interval per admission since. */
  function Claim(l: Limits, admitted: seq<nat>, i: nat): nat
    requires i < |admitted|
  {
    admitted[i] + (|admitted| - i) * l.interval
  }

  /** The theoretical arrival time is the largest claim of any admission. */
  lemma {:induction false} TatIsLargestClaim(l: Limits, admitted: seq<nat>)
    requires admitted != []
    ensures exists i: nat :: i < |admitted| && Tat(l, admitted) == Claim(l, admitted, i)
    ensures forall i: nat :: i < |admitted| ==> Claim(l, admitted, i) <= Tat(l, admitted)
  {
    var front, n := Front(admitted), |admitted| - 1;
    assert Claim(l, admitted, n) == admitted[n] + l.interval;
    forall i: nat | i < n
      ensures Claim(l, admitted, i) == Claim(l, front, i) + l.interval
    {
      assert (n + 1 - i) * l.interval == (n - i) * l.interval + l.interval;
    }
    if front != [] {
      TatIsLargestClaim(l, front);
      var i: nat :| i < n && Tat(l, front) == Claim(l, front, i);
      if admitted[n] <= Tat(l, front) {
        assert Tat(l, admitted) == Claim(l, admitted, i);
      } else {
        assert Tat(l, admitted) == Claim(l, admitted, n);
      }
    } else {
      assert Tat(l, admitted) == Claim(l, admitted, 0);
    }
  }

  /** An arrival at `t` keeps the contract with every earlier admission i: the admissions from i on, times the
      interval, fit into the time since i plus the tolerance. */
  ghost predicate Conforms(l: Limits, admitted: seq<nat>, t: nat) {
    forall i: nat :: i < |admitted| ==> (|admitted| - i) * l.interval <= t - admitted[i] + l.tolerance
  }

  /** The limiter admits an arrival exactly when it conforms, whatever the order of the clock samples. */
  lemma AdmitsIffConforms(l: Limits, admitted: seq<nat>, t: nat)
    ensures !Rejects(l, Tat(l, admitted), t) <==> Conforms(l, admitted, t)
  {
    if admitted != [] {
      TatIsLargestClaim(l, admitted);
      forall i: nat | i < |admitted|
        ensures (|admitted| - i) * l.interval <= t - admitted[i] + l.tolerance <==>
          Claim(l, admitted, i) <= t + l.tolerance
      {
      }
    }
  }

  /** From idle, arrivals at one instant are admitted as long as their intervals fit into the tolerance. */
  lemma BurstAtOneInstant(l: Limits, t: nat, n: nat)
    ensures !Rejects(l, Tat(l, seq(n, _ => t)), t) <==> n * l.interval <= l.tolerance
  {
    var burst: seq<nat> := seq(n, _ => t);
    AdmitsIffConforms(l, burst, t);
    hide Tat;
    if n * l.interval <= l.tolerance {
      forall i: nat | i < |burst|
        ensures (|burst| - i) * l.interval <= t - burst[i] + l.tolerance
      {
        FewerIntervals(n - i, n, l.interval);
      }
    } else {
      assert burst[0] == t;
      assert !((|burst| - 0) * l.interval <= t - burst[0] + l.tolerance);
    }
  }

  lemma FewerIntervals(few: nat, many: nat, interval: nat)
    requires few <= many
    ensures few * interval <= many * interval
  {
  }

  /** Each admission was granted by the rule. */
  ghost predicate Granted(l: Limits, admitted: seq<nat>) {
    admitted == [] || (Granted(l, Front(admitted)) && !Rejects(l, Tat(l, Front(admitted)), admitted[|admitted| - 1]))
  }

  lemma AdmitSnoc(l: Limits, admitted: seq<nat>, t: nat)
    ensures Tat(l, admitted + [t]) == Advance(l, Tat(l, admitted), t)
    ensures Granted(l, admitted + [t]) <==> Granted(l, admitted) && !Rejects(l, Tat(l, admitted), t)
  {
    assert Front(admitted + [t]) == admitted;
  }

  /** From any admission i to any later admission j the intervals fit into the elapsed time plus the tolerance. */
  lemma {:induction false} WindowBound(l: Limits, admitted: seq<nat>, i: nat, j: nat)
    requires Granted(l, admitted) && i <= j < |admitted|
    ensures (j - i) * l.interval <= admitted[j] - admitted[i] + l.tolerance
    decreases admitted
  {
    var front := Front(admitted);
    if j < |front| {
      WindowBound(l, front, i, j);
    } else if i < j {
      AdmitsIffConforms(l, front, admitted[j]);
      assert (|front| - i) * l.interval <= admitted[j] - front[i] + l.tolerance;
    } else {
      assert (j - i) * l.interval == 0;
    }
  }

  /** In a window of `d` nanoseconds at most d / interval + tolerance / interval + 1 arrivals are admitted: n of them
      satisfy (n - 1) * interval <= d + tolerance. */
  lemma AdmittedInWindow(l: Limits, admitted: seq<nat>, d: nat)
    requires Granted(l, admitted) && admitted != []
    requires admitted[|admitted| - 1] - admitted[0] <= d
    ensures (|admitted| - 1) * l.interval <= d + l.tolerance
  {
    WindowBound(l, admitted, 0, |admitted| - 1);
  }

  /** The theoretical arrival time stays within one interval and the tolerance of the latest admission. */
  lemma {:induction false} TatBound(l: Limits, admitted: seq<nat>, horizon: nat)
    requires Granted(l, admitted) && forall i :: 0 <= i < |admitted| ==> admitted[i] <= horizon
    ensures Tat(l, admitted) <= horizon + l.tolerance + l.interval
  {
    if admitted != [] {
      TatBound(l, Front(admitted), horizon);
    }
  }

  /** The largest of the given times; 0 if there is none. */
  function Largest(times: seq<nat>): (m: nat)
    ensures forall t :: t in times ==> t <= m
    ensures times != [] ==> m in times
  {
    if times == [] then 0
    else
      assert times == Front(times) + [Last(times)];
      Max(Largest(Front(times)), Last(times))
  }

  /** The sum of an admission does not wrap below the bound on clock samples. */
  lemma NoWrap(l: Limits, horizon: nat, tat: nat, t: nat)
    requires !Rejects(l, tat, t) && t <= horizon && horizon + l.tolerance + l.interval < WORD64
    ensures Advance(l, tat, t) % WORD64 == Advance(l, tat, t) <= horizon + l.tolerance + l.interval
  {
    hide Pow2;
    SmallMod(WORD64, Advance(l, tat, t));
  }

  lemma NotBelow(t: nat, u: nat, rate: real)
    requires rate > 0.0 && SECOND < (t + 1) as real * rate && u as real * rate <= SECOND
    ensures u <= t
  {
    if t < u {
      ProductGrows((t + 1) as real, u as real, rate);
    }
  }

  lemma SameFloor(x: nat, y: nat, r: real)
    requires x as real <= r < (x + 1) as real && y as real <= r < (y + 1) as real
    ensures x == y
  {
  }

  /** The limits are the only ones that meet rate and burst. */
  lemma MeetUnique(l: Limits, m: Limits, rate: real, burst: real)
    requires rate > 0.0 && burst >= 1.0 && Meet(l, rate, burst) && Meet(m, rate, burst)
    ensures l == m
  {
    NotBelow(l.interval, m.interval, rate);
    NotBelow(m.interval, l.interval, rate);
    var room := (burst - 1.0) * l.interval as real;
    assert room == (burst - 1.0) * m.interval as real;
    SameFloor(l.tolerance, m.tolerance, room);
  }

  /** Ten packets a second in bursts of five: a tenth of a second apart, four tenths of tolerance. */
  lemma TenPerSecond()
    ensures LimitsFor(10.0, 5.0) == Limits(100_000_000, 400_000_000)
  {
    MeetUnique(LimitsFor(10.0, 5.0), Limits(100_000_000, 400_000_000), 10.0, 5.0);
  }

  /** From idle, `n` arrivals at one instant leave room for another exactly when the burst capacity covers it as well:
      the whole part of the burst capacity passes, however the interval and the tolerance were truncated. */
  lemma BurstIsCapacity(rate: real, burst: real, t: nat, n: nat)
    requires rate > 0.0 && burst >= 1.0 && LimitsFor(rate, burst).interval >= 1
    ensures var l := LimitsFor(rate, burst); !Rejects(l, Tat(l, seq(n, _ => t)), t) <==> (n + 1) as real <= burst
  {
    var l := LimitsFor(rate, burst);
    BurstAtOneInstant(l, t, n);
    hide LimitsFor, Tat, Rejects, Meet;
    MeetFits(l, rate, burst, n);
  }

  lemma MeetFits(l: Limits, rate: real, burst: real, n: nat)
    requires Meet(l, rate, burst) && l.interval >= 1
    ensures n * l.interval <= l.tolerance <==> (n + 1) as real <= burst
  {
    IntervalsFit(n, l.interval, l.tolerance, burst - 1.0);
  }

  /** Whole intervals fit into the truncated tolerance exactly when they fit into the exact one. */
  lemma IntervalsFit(n: nat, interval: nat, tolerance: nat, room: real)
    requires interval >= 1 && tolerance as real <= room * interval as real < (tolerance + 1) as real
    ensures n * interval <= tolerance <==> n as real <= room
  {
    CastProduct(n, interval);
    if n as real <= room {
      ProductGrows(n as real, room, interval as real);
      AtMost(n * interval, tolerance, room * interval as real);
    } else {
      ProductGrowsStrictly(room, n as real, interval as real);
      Above(n * interval, tolerance, room * interval as real);
    }
  }

  lemma AtMost(whole: nat, tolerance: nat, r: real)
    requires whole as real <= r < (tolerance + 1) as real
    ensures whole <= tolerance
  {
  }

  lemma Above(whole: nat, tolerance: nat, r: real)
    requires tolerance as real <= r < whole as real
    ensures whole > tolerance
  {
  }

  lemma CastProduct(n: nat, t: nat)
    ensures (n * t) as real == n as real * t as real
  {
  }

  /** `n` admissions in `d` nanoseconds exceed the burst capacity by no more than one per interval, and so by no more
      than the rate allows in that time, up to the nanosecond by which the interval was truncated. */
  ghost predicate AtRate(n: nat, l: Limits, rate: real, burst: real, d: nat) {
    && (n as real - burst) * l.interval as real <= d as real
    && (n as real >= burst ==> (n as real - burst) * (SECOND - rate) <= d as real * rate)
  }

  lemma AdmittedAtRate(rate: real, burst: real, admitted: seq<nat>, d: nat)
    requires rate > 0.0 && burst >= 1.0 && admitted != [] && Granted(LimitsFor(rate, burst), admitted)
    requires admitted[|admitted| - 1] - admitted[0] <= d
    ensures AtRate(|admitted|, LimitsFor(rate, burst), rate, burst, d)
  {
    hide LimitsFor, Granted, Meet, AtRate;
    AdmittedInWindow(LimitsFor(rate, burst), admitted, d);
    RateBound(|admitted|, LimitsFor(rate, burst), rate, burst, d);
  }

  lemma RateBound(n: nat, l: Limits, rate: real, burst: real, d: nat)
    requires rate > 0.0 && Meet(l, rate, burst) && n >= 1 && (n - 1) * l.interval <= d + l.tolerance
    ensures AtRate(n, l, rate, burst, d)
  {
    var t := l.interval as real;
    CastProduct(n - 1, l.interval);
    SplitProduct(n as real, burst, t);
    Distribute(t, rate);
    var excess := n as real - burst;
    assert excess * t <= d as real by {
      var left, spare: real := (n - 1) as real * t, (burst - 1.0) * t;
      assert left <= (d + l.tolerance) as real == d as real + l.tolerance as real;
      assert excess * t == left - spare;
    }
    if excess >= 0.0 {
      RateStep(excess, t, rate, d as real);
    }
  }

  lemma SplitProduct(n: real, burst: real, t: real)
    ensures (n - burst) * t == (n - 1.0) * t - (burst - 1.0) * t
  {
  }

  lemma Distribute(t: real, rate: real)
    ensures (t + 1.0) * rate == t * rate + rate
  {
  }

  lemma RateStep(excess: real, t: real, rate: real, d: real)
    requires excess >= 0.0 && rate > 0.0 && excess * t <= d && SECOND - rate < t * rate
    ensures excess * (SECOND - rate) <= d * rate
  {
    ProductGrows(SECOND - rate, t * rate, excess);
    ProductGrows(excess * t, d, rate);
    Reassociate(t, rate, excess);
  }

  lemma Reassociate(t: real, rate: real, excess: real)
    ensures (t * rate) * excess == (excess * t) * rate
    ensures (SECOND - rate) * excess == excess * (SECOND - rate)
  {
  }

  /** The interval is 0 exactly for rates above one per nanosecond. */
  lemma ZeroInterval(rate: real, burst: real)
    requires rate > 0.0 && burst >= 1.0
    ensures LimitsFor(rate, burst).interval == 0 <==> rate > SECOND
  {
    var t := LimitsFor(rate, burst).interval;
    assert Meet(LimitsFor(rate, burst), rate, burst);
    if t >= 1 {
      ProductGrows(1.0, t as real, rate);
    }
  }

  /** Such a limiter never limits the rate: it turns away exactly the arrivals whose clock sample lies before that of an
      earlier admission. */
  lemma ZeroIntervalAdmits(rate: real, burst: real, admitted: seq<nat>, t: nat)
    requires rate > SECOND && burst >= 1.0
    ensures var l := LimitsFor(rate, burst);
      l == Limits(0, 0) && (!Rejects(l, Tat(l, admitted), t) <==> forall i :: 0 <= i < |admitted| ==> admitted[i] <= t)
  {
    var l := LimitsFor(rate, burst);
    ZeroInterval(rate, burst);
    AdmitsIffConforms(l, admitted, t);
    assert Meet(l, rate, burst);
    hide LimitsFor, Tat, Rejects;
    assert (burst - 1.0) * 0.0 == 0.0;
    if forall i :: 0 <= i < |admitted| ==> admitted[i] <= t {
      assert Conforms(l, admitted, t);
    }
    if Conforms(l, admitted, t) {
      forall i | 0 <= i < |admitted|
        ensures admitted[i] <= t
      {
        assert (|admitted| - i) * l.interval <= t - admitted[i] + l.tolerance;
      }
    }
  }

  /** Arrivals at least one interval apart. */
  ghost predicate Paced(l: Limits, arrivals: seq<nat>) {
    forall i, j :: 0 <= i && j == i + 1 && j < |arrivals| ==> arrivals[i] + l.interval <= arrivals[j]
  }

  /** A stream no faster than the interval is admitted as a whole. */
  lemma {:induction false} PacedIsAdmitted(l: Limits, tat: nat, arrivals: seq<nat>)
    requires Paced(l, arrivals) && (arrivals != [] ==> tat <= arrivals[0])
    ensures forall i :: 0 <= i < |arrivals| ==> Decisions(l, tat, arrivals)[i]
    decreases arrivals
  {
    if arrivals != [] {
      var rest := arrivals[1..];
      assert forall i :: 0 <= i < |rest| ==> rest[i] == arrivals[i + 1];
      PacedIsAdmitted(l, Advance(l, tat, arrivals[0]), rest);
    }
  }

  function Elapsed(from: int, to: int): int {
    to - from
  }

  /** Arrivals whose rate never exceeds the configured one. */
  ghost predicate WithinRate(rate: real, arrivals: seq<nat>) {
    forall i, j :: 0 <= i && j == i + 1 && j < |arrivals| ==> Elapsed(arrivals[i], arrivals[j]) as real * rate >= SECOND
  }

  /** A stream within the configured rate is admitted as a whole. */
  lemma WithinRateIsAdmitted(rate: real, burst: real, arrivals: seq<nat>)
    requires rate > 0.0 && burst >= 1.0 && WithinRate(rate, arrivals)
    ensures forall i :: 0 <= i < |arrivals| ==> Decisions(LimitsFor(rate, burst), 0, arrivals)[i]
  {
    var l := LimitsFor(rate, burst);
    forall i, j | 0 <= i && j == i + 1 && j < |arrivals|
      ensures arrivals[i] + l.interval <= arrivals[j]
    {
      assert Elapsed(arrivals[i], arrivals[j]) as real * rate >= SECOND;
      GapIsLong(rate, l.interval, Elapsed(arrivals[i], arrivals[j]));
    }
    PacedIsAdmitted(l, 0, arrivals);
  }

  lemma GapIsLong(rate: real, interval: nat, gap: int)
    requires rate > 0.0 && interval as real * rate <= SECOND <= gap as real * rate
    ensures interval <= gap
  {
    if gap < interval {
      ProductGrowsStrictly(gap as real, interval as real, rate);
    }
  }

  /** The continuous-state leaky bucket of Annex A of ITU-T I.371: bucket content and last conformance time. */
  datatype Bucket = Bucket(content: nat, lastConforming: nat)

  /** The bucket content left at `t`; negative when the bucket has run dry. */
  function Drained(b: Bucket, t: nat): int {
    b.content - (t - b.lastConforming)
  }

  function Pour(l: Limits, b: Bucket, t: nat): (Bucket, bool) {
    var x := Drained(b, t);
    if x < 0 then (Bucket(l.interval, t), true)
    else if x > l.tolerance then (b, false)
    else (Bucket(x + l.interval, t), true)
  }

  /** What the limiter decides for each arrival of a run. */
  function Decisions(l: Limits, tat: nat, arrivals: seq<nat>): (decisions: seq<bool>)
    ensures |decisions| == |arrivals|
    decreases arrivals
  {
    if arrivals == [] then []
    else if Rejects(l, tat, arrivals[0]) then [false] + Decisions(l, tat, arrivals[1..])
    else [true] + Decisions(l, Advance(l, tat, arrivals[0]), arrivals[1..])
  }

  /** The elements with a positive verdict. */
  function Chosen<T>(xs: seq<T>, verdicts: seq<bool>): seq<T>
    requires |xs| == |verdicts|
  {
    if xs == [] then [] else Chosen(Front(xs), Front(verdicts)) + (if Last(verdicts) then [Last(xs)] else [])
  }

  lemma ChosenSnoc<T>(xs: seq<T>, verdicts: seq<bool>, x: T, verdict: bool)
    requires |xs| == |verdicts|
    ensures Chosen(xs + [x], verdicts + [verdict]) ==
      if verdict then Chosen(xs, verdicts) + [x] else Chosen(xs, verdicts)
  {
    assert Front(xs + [x]) == xs && Front(verdicts + [verdict]) == verdicts;
    assert Chosen(xs, verdicts) + [] == Chosen(xs, verdicts);
  }

  /** The sequential limiter's state after a run of arrivals. */
  function TatFrom(l: Limits, tat: nat, arrivals: seq<nat>): nat
    decreases arrivals
  {
    if arrivals == [] then tat
    else TatFrom(l, if Rejects(l, tat, arrivals[0]) then tat else Advance(l, tat, arrivals[0]), arrivals[1..])
  }

  lemma {:induction false} DecisionsSnoc(l: Limits, tat: nat, arrivals: seq<nat>, t: nat)
    ensures var end := TatFrom(l, tat, arrivals);
      && Decisions(l, tat, arrivals + [t]) == Decisions(l, tat, arrivals) + [!Rejects(l, end, t)]
      && TatFrom(l, tat, arrivals + [t]) == if Rejects(l, end, t) then end else Advance(l, end, t)
    decreases arrivals
  {
    if arrivals == [] {
      assert ([t])[1..] == [];
    } else {
      assert (arrivals + [t])[1..] == arrivals[1..] + [t];
      DecisionsSnoc(l, if Rejects(l, tat, arrivals[0]) then tat else Advance(l, tat, arrivals[0]), arrivals[1..], t);
    }
  }

  function BucketDecisions(l: Limits, b: Bucket, arrivals: seq<nat>): seq<bool>
    decreases arrivals
  {
    if arrivals == [] then []
    else
      var (b', admitted) := Pour(l, b, arrivals[0]);
      [admitted] + BucketDecisions(l, b', arrivals[1..])
  }

  /** The leaky bucket and the limiter decide every run of arrivals alike; the theoretical arrival time is the
      bucket content plus the last conformance time. */
  lemma {:induction false} LeakyBucketAgrees(l: Limits, b: Bucket, arrivals: seq<nat>)
    ensures BucketDecisions(l, b, arrivals) == Decisions(l, b.content + b.lastConforming, arrivals)
    decreases arrivals
  {
    if arrivals != [] {
      LeakyBucketAgrees(l, Pour(l, b, arrivals[0]).0, arrivals[1..]);
    }
  }

  /** The limiter object, used by one thread. */
  class GcraRateLimiter {
    const limits: Limits
    var tat: nat

    constructor (ratePerSecond: real, burstCapacity: real)
      requires ratePerSecond > 0.0 && burstCapacity >= 1.0
      ensures Meet(limits, ratePerSecond, burstCapacity) && limits == LimitsFor(ratePerSecond, burstCapacity)
      ensures tat == 0
    {
      limits := LimitsFor(ratePerSecond, burstCapacity);
      tat := 0;
    }

    /** One call at clock sample `t`. The weak exchange may fail spuriously, here `spurious` times. */
    method Allow(t: nat, spurious: nat) returns (allowed: bool)
      modifies this
      ensures allowed <==> !Rejects(limits, old(tat), t)
      ensures tat == if allowed then Advance(limits, old(tat), t) % WORD64 else old(tat)
    {
      var currentTat := tat;
      var failures := spurious;
      while true
        invariant currentTat == tat == old(tat)
        decreases failures
      {
        var baseTat := Max(t, currentTat);
        if currentTat > t && currentTat - t > limits.tolerance {
          return false;
        }
        var newTat := (baseTat + limits.interval) % WORD64;
        if failures == 0 {
          tat := newTat;
          return true;
        }
        failures := failures - 1;
        currentTat := tat;
      }
    }
  }
}
