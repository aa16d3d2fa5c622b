/** The Holt level-and-trend recurrence of the telemetry predictor, over the reals. */
module Holt {
  import opened Common

  /** The smoothing factors of level and trend, and the defaults, for which the stability results hold. */
  datatype Factors = Factors(alpha: real, beta: real)

  const DEFAULT := Factors(0.8, 0.5)

  datatype State = State(level: real, trend: real)

  /** One update of level and trend with the latency `y`. */
  function UpdateWith(f: Factors, s: State, y: real): State {
    var level := f.alpha * y + (1.0 - f.alpha) * (s.level + s.trend);
    State(level, f.beta * (level - s.level) + (1.0 - f.beta) * s.trend)
  }

  function Update(s: State, y: real): State {
    UpdateWith(DEFAULT, s, y)
  }

  function Abs(x: real): real {
    if x < 0.0 then -x else x
  }

  /** The distance of level and trend from a ramp that is at `y` now and rises by `slope` per sample. */
  function RampError(s: State, y: real, slope: real): real {
    Abs(s.level - y) + Abs(s.trend - slope)
  }

  /** On a linear ramp the error shrinks by at least a factor of 0.8 per sample. */
  lemma RampErrorShrinks(s: State, y: real, slope: real)
    ensures RampError(Update(s, y + slope), y + slope, slope) <= 0.8 * RampError(s, y, slope)
  {
    var e, f := s.level - y, s.trend - slope;
    var s' := Update(s, y + slope);
    assert s'.level - (y + slope) == 0.2 * e + 0.2 * f;
    assert s'.trend - slope == 0.6 * f - 0.4 * e;
  }

  function Power(n: nat): (p: real)
    ensures p > 0.0
  {
    if n == 0 then 1.0 else 0.8 * Power(n - 1)
  }

  /** A linear ramp: n samples after `y`, each `slope` above the one before. */
  function Ramp(y: real, slope: real, n: nat): real {
    if n == 0 then y else Ramp(y, slope, n - 1) + slope
  }

  /** The state after n more samples of the ramp. */
  function AlongRamp(s: State, y: real, slope: real, n: nat): State {
    if n == 0 then s else Update(AlongRamp(s, y, slope, n - 1), Ramp(y, slope, n))
  }

  /** After n samples of a ramp at most 0.8 to the n-th of the error is left. */
  lemma {:induction false} RampConverges(s: State, y: real, slope: real, n: nat)
    ensures RampError(AlongRamp(s, y, slope, n), Ramp(y, slope, n), slope) <= Power(n) * RampError(s, y, slope)
  {
    hide Update, RampError;
    if n > 0 {
      RampConverges(s, y, slope, n - 1);
      var before, at := AlongRamp(s, y, slope, n - 1), Ramp(y, slope, n - 1);
      RampErrorShrinks(before, at, slope);
      ShrinkStep(RampError(AlongRamp(s, y, slope, n), Ramp(y, slope, n), slope), RampError(before, at, slope),
        Power(n - 1), RampError(s, y, slope));
    }
  }

  lemma ShrinkStep(now: real, before: real, power: real, start: real)
    requires now <= 0.8 * before && before <= power * start
    ensures now <= 0.8 * power * start
  {
    var product := power * start;
    assert 0.8 * power * start == 0.8 * product;
  }

  /** The stability bound: level and trend together stay within six times the largest latency. */
  ghost predicate Bounded(s: State, m: real) {
    Abs(s.level) + Abs(s.trend) <= 6.0 * m
  }

  lemma UpdateKeepsBound(s: State, y: real, m: real)
    requires 0.0 <= y <= m && Bounded(s, m)
    ensures Bounded(Update(s, y), m)
  {
    var s' := Update(s, y);
    assert s'.level == 0.8 * y + 0.2 * s.level + 0.2 * s.trend;
    assert s'.trend == 0.4 * y - 0.4 * s.level + 0.6 * s.trend;
  }

  lemma ForecastBound(s: State, m: real)
    requires Bounded(s, m)
    ensures Abs(s.level + 3.0 * s.trend) <= 18.0 * m
  {
  }

  ghost predicate InRange(history: seq<real>, m: real) {
    forall i :: 0 <= i < |history| ==> 0.0 <= history[i] <= m
  }

  lemma InitialBound(history: seq<real>, m: real)
    requires |history| >= 2 && InRange(history, m)
    ensures Bounded(State(history[0], history[1] - history[0]), m)
  {
  }

  /** The values without the oldest when there are more than `window`. */
  function Window(values: seq<real>, window: nat): (w: seq<real>)
    requires values != []
    ensures |w| == if |values| > window then |values| - 1 else |values|
  {
    if |values| > window then values[1..] else values
  }

  /** What the predictor remembers of a link: a window of latencies, and level and trend once there are any. */
  datatype Memory = Memory(history: seq<real>, holt: Option<State>)

  const BLANK := Memory([], None)

  /** The memory after one more latency. Level and trend wait for three latencies in the window; the first update starts
      from the two oldest of them and uses the newest. */
  function Observe(f: Factors, window: nat, m: Memory, y: real): Memory {
    var h := Window(m.history + [y], window);
    if |h| < 3 then Memory(h, m.holt)
    else
      var prev := if m.holt.Some? then m.holt.value else State(h[0], h[1] - h[0]);
      Memory(h, Some(UpdateWith(f, prev, y)))
  }

  /** The memory after a sequence of latencies. */
  function ObserveAll(f: Factors, window: nat, ys: seq<real>): Memory {
    if ys == [] then BLANK else Observe(f, window, ObserveAll(f, window, Front(ys)), Last(ys))
  }

  /** The window holds the latest latencies, in order, as many as fit. */
  lemma {:induction false} HistoryIsLatest(f: Factors, window: nat, ys: seq<real>)
    ensures ObserveAll(f, window, ys).history == if |ys| > window then ys[|ys| - window..] else ys
  {
    if ys != [] {
      hide UpdateWith, Window;
      HistoryIsLatest(f, window, Front(ys));
      WindowNext(ys, window);
      ObserveAllNext(f, window, ys);
      hide ObserveAll, Observe;
    }
  }

  lemma ObserveAllNext(f: Factors, window: nat, ys: seq<real>)
    requires ys != []
    ensures ObserveAll(f, window, ys).history == Window(ObserveAll(f, window, Front(ys)).history + [Last(ys)], window)
  {
    hide UpdateWith;
  }

  lemma WindowNext(ys: seq<real>, window: nat)
    requires ys != []
    ensures var front := Front(ys);
      Window((if |front| > window then front[|front| - window..] else front) + [Last(ys)], window) ==
        if |ys| > window then ys[|ys| - window..] else ys
  {
    var front := Front(ys);
    assert ys == front + [Last(ys)];
    if |front| > window {
      assert (front[|front| - window..] + [Last(ys)])[1..] == ys[|ys| - window..];
    }
  }

  /** The latency expected three samples ahead. */
  function Forecast(s: State): real {
    s.level + 3.0 * s.trend
  }

  /** The window is in range, and level and trend are bounded. */
  ghost predicate MemoryBounded(m: Memory, top: real) {
    InRange(m.history, top) && (m.holt.Some? ==> Bounded(m.holt.value, top))
  }

  /** For any latencies in [0, top] level and trend stay bounded, and so does the forecast. */
  lemma ObserveKeepsBound(window: nat, m: Memory, y: real, top: real)
    requires MemoryBounded(m, top) && 0.0 <= y <= top
    ensures var m' := Observe(DEFAULT, window, m, y);
      MemoryBounded(m', top) && (m'.holt.Some? ==> Abs(Forecast(m'.holt.value)) <= 18.0 * top)
  {
    hide Bounded, Abs;
    var h := Window(m.history + [y], window);
    assert InRange(m.history + [y], top);
    if |h| >= 3 {
      var prev := if m.holt.Some? then m.holt.value else State(h[0], h[1] - h[0]);
      if m.holt.None? {
        InitialBound(h, top);
      }
      UpdateKeepsBound(prev, y, top);
      ForecastBound(Update(prev, y), top);
    } else if m.holt.Some? {
      ForecastBound(m.holt.value, top);
    }
  }

  /** The memory after the first n + 1 samples of a ramp. */
  function AfterRamp(window: nat, y: real, slope: real, n: nat): Memory {
    Observe(DEFAULT, window, if n == 0 then BLANK else AfterRamp(window, y, slope, n - 1), Ramp(y, slope, n))
  }

  /** The state the first update leaves: level 0.2 slopes short of the ramp, trend 0.4 slopes too steep. */
  function FirstState(y: real, slope: real): State {
    State(y + 1.8 * slope, 1.4 * slope)
  }

  lemma ObserveShort(window: nat, m: Memory, y: real)
    requires window >= 3 && |m.history| < 2
    ensures Observe(DEFAULT, window, m, y) == Memory(m.history + [y], m.holt)
  {
  }

  lemma ObserveThird(window: nat, a: real, b: real, c: real)
    requires window >= 3
    ensures Observe(DEFAULT, window, Memory([a, b], None), c) == Memory([a, b, c], Some(Update(State(a, b - a), c)))
  {
    hide UpdateWith;
    assert [a, b] + [c] == [a, b, c];
  }

  lemma FirstThree(window: nat, y: real, slope: real)
    requires window >= 3
    ensures AfterRamp(window, y, slope, 2) == Memory([y, y + slope, y + 2.0 * slope], Some(FirstState(y, slope)))
  {
    hide Observe, Update, FirstState;
    var b, c := y + slope, y + 2.0 * slope;
    assert Ramp(y, slope, 0) == y && Ramp(y, slope, 1) == b && Ramp(y, slope, 2) == c;
    hide Ramp;
    ObserveShort(window, BLANK, y);
    ObserveShort(window, Memory([y], None), b);
    assert [] + [y] == [y] && [y] + [b] == [y, b];
    assert AfterRamp(window, y, slope, 0) == Memory([y], None);
    assert AfterRamp(window, y, slope, 1) == Memory([y, b], None);
    ObserveThird(window, y, b, c);
    FirstUpdate(y, slope);
  }

  lemma FirstUpdate(y: real, slope: real)
    ensures Update(State(y, (y + slope) - y), y + 2.0 * slope) == FirstState(y, slope)
  {
  }

  /** From the third sample of a ramp on, the predictor's level and trend are those of the recurrence started there. */
  lemma {:induction false} AfterRampIsAlongRamp(window: nat, y: real, slope: real, n: nat)
    requires window >= 3
    ensures var m := AfterRamp(window, y, slope, n + 2);
      |m.history| >= 3 && m.holt == Some(AlongRamp(FirstState(y, slope), y + 2.0 * slope, slope, n))
    ensures Ramp(y + 2.0 * slope, slope, n) == Ramp(y, slope, n + 2)
  {
    if n == 0 {
      FirstThree(window, y, slope);
      assert Ramp(y, slope, 2) == Ramp(y, slope, 1) + slope && Ramp(y, slope, 1) == y + slope;
    } else {
      AfterRampIsAlongRamp(window, y, slope, n - 1);
    }
  }

  lemma FirstError(y: real, slope: real)
    ensures RampError(FirstState(y, slope), y + 2.0 * slope, slope) == 0.6 * Abs(slope)
  {
  }

  lemma ForecastError(s: State, y: real, slope: real)
    ensures Abs(Forecast(s) - (y + 3.0 * slope)) <= 3.0 * RampError(s, y, slope)
  {
  }

  /** The forecast is off by at most 1.8 times 0.8 to the n-th slopes. */
  ghost predicate ForecastNear(m: Memory, value: real, slope: real, n: nat) {
    m.holt.Some? && Abs(Forecast(m.holt.value) - value) <= 1.8 * (Power(n) * Abs(slope))
  }

  /** On a linear ramp the forecast made with sample n + 2 is that near to what the ramp is three samples later. */
  lemma RampForecast(window: nat, y: real, slope: real, n: nat)
    requires window >= 3
    ensures ForecastNear(AfterRamp(window, y, slope, n + 2), Ramp(y, slope, n + 2) + 3.0 * slope, slope, n)
  {
    hide AfterRamp, AlongRamp, Ramp, FirstState, Forecast, RampError, Abs, Power;
    var first, start := FirstState(y, slope), y + 2.0 * slope;
    AfterRampIsAlongRamp(window, y, slope, n);
    RampConverges(first, start, slope, n);
    FirstError(y, slope);
    var end, at := AlongRamp(first, start, slope, n), Ramp(start, slope, n);
    ForecastError(end, at, slope);
    ScaledError(Abs(Forecast(end) - (at + 3.0 * slope)), RampError(end, at, slope), Power(n), Abs(slope));
  }

  lemma ScaledError(off: real, error: real, power: real, slope: real)
    requires off <= 3.0 * error && error <= power * (0.6 * slope)
    ensures off <= 1.8 * (power * slope)
  {
    assert power * (0.6 * slope) == 0.6 * (power * slope);
  }

  lemma UpdateIs(f: Factors, s: State, y: real, level: real, trend: real)
    requires level == f.alpha * y + (1.0 - f.alpha) * (s.level + s.trend)
    requires trend == f.beta * (level - s.level) + (1.0 - f.beta) * s.trend
    ensures State(level, trend) == UpdateWith(f, s, y)
  {
  }

  /** The predictor's per-link memory, in two dictionaries. */
  class TelemetryPredictor {
    const windowSize: nat
    const factors: Factors
    var latencyHistory: map<string, seq<real>>
    var holtStates: map<string, State>

    constructor (windowSize: nat, alpha: real, beta: real)
      ensures this.windowSize == windowSize && factors == Factors(alpha, beta)
      ensures forall key :: MemoryOf(key) == BLANK
    {
      this.windowSize, factors := windowSize, Factors(alpha, beta);
      latencyHistory, holtStates := map[], map[];
    }

    /** What is remembered of a link. */
    function MemoryOf(key: string): Memory
      reads this
    {
      Memory(if key in latencyHistory then latencyHistory[key] else [],
             if key in holtStates then Some(holtStates[key]) else None)
    }

    /** The state update of one analysis; returns whether a forecast was possible, and the forecast. */
    method Analyze(key: string, latency: real) returns (ready: bool, forecast: real)
      modifies this
      ensures MemoryOf(key) == Observe(factors, windowSize, old(MemoryOf(key)), latency)
      ensures forall other :: other != key ==> MemoryOf(other) == old(MemoryOf(other))
      ensures ready <==> |MemoryOf(key).history| >= 3
      ensures ready ==> MemoryOf(key).holt.Some? && forecast == Forecast(MemoryOf(key).holt.value)
    {
      forecast := 0.0;
      var history := if key in latencyHistory then latencyHistory[key] else [];
      history := history + [latency];
      if |history| > windowSize {
        history := history[1..];
      }
      latencyHistory := latencyHistory[key := history];
      if |history| < 3 {
        return false, forecast;
      }
      var prev: State;
      if key !in holtStates {
        prev := State(history[0], history[1] - history[0]);
      } else {
        prev := holtStates[key];
      }
      var level := factors.alpha * latency + (1.0 - factors.alpha) * (prev.level + prev.trend);
      var trend := factors.beta * (level - prev.level) + (1.0 - factors.beta) * prev.trend;
      UpdateIs(factors, prev, latency, level, trend);
      hide UpdateWith;
      holtStates := holtStates[key := State(level, trend)];
      return true, level + 3.0 * trend;
    }
  }
}
