/** The limiter's admissions and the telemetry events that tell of them. */
module Admissions {
  import opened Bits
  import opened Common
  import opened Gcra
  import opened Monitor

  /** Events of admitted packets. */
  function PassedCount(events: seq<MetricEvent>): nat {
    |events| - DroppedCount(events)
  }

  /** The event of a packet: a simulated latency if admitted, the dropped flag if not. */
  function EventOf(allowed: bool, r: Request): (e: MetricEvent)
    ensures Tells(e, allowed, r)
  {
    if allowed then MetricEvent(r.stamp, r.source, "SecureHost", r.size % WORD32, 120, false)
    else MetricEvent(r.stamp, r.source, "SecureHost", 0, 0, true)
  }

  /** A packet to decide about: when its event is stamped, who sent it, and the size of the body it came in. */
  datatype Request = Request(stamp: nat, source: string, size: nat)

  /** What the event of a packet says: an admitted one its body size, a 32-bit word, and 120 nanoseconds, a rejected one
      that it was dropped, and nothing else. */
  predicate Tells(e: MetricEvent, allowed: bool, r: Request) {
    && e.timestampUs == r.stamp && e.sourceNode == r.source && e.destNode == "SecureHost"
    && e.dropped == !allowed
    && e.packetSize == (if allowed then r.size % 0x1_0000_0000 else 0)
    && e.latencyNs == (if allowed then 120 else 0)
  }

  /** The admissions of a run: their clock samples, the body sizes of their packets, and which admission the k-th event
      of an admitted packet tells of. */
  datatype Ledger = Ledger(admitted: seq<nat>, sizes: seq<nat>, passes: seq<nat>)

  /** The sizes, as 32-bit words, of the admissions that events tell of. */
  function SizesAt(sizes: seq<nat>, passes: seq<nat>): nat
    requires Below(passes, |sizes|)
  {
    if passes == [] then 0
    else
      assert Below(Front(passes), |sizes|);
      SizesAt(sizes, Front(passes)) + sizes[Last(passes)] % WORD32
  }

  lemma {:induction false} SizesAtLonger(sizes: seq<nat>, passes: seq<nat>, size: nat)
    requires Below(passes, |sizes|)
    ensures Below(passes, |sizes + [size]|) && SizesAt(sizes + [size], passes) == SizesAt(sizes, passes)
  {
    if passes != [] {
      assert Below(Front(passes), |sizes|);
      SizesAtLonger(sizes, Front(passes), size);
    }
  }

  lemma SizesAtSnoc(sizes: seq<nat>, passes: seq<nat>, turn: nat)
    requires Below(passes, |sizes|) && turn < |sizes|
    ensures Below(passes + [turn], |sizes|)
    ensures SizesAt(sizes, passes + [turn]) == SizesAt(sizes, passes) + sizes[turn] % WORD32
  {
    assert Front(passes + [turn]) == passes;
  }

  ghost predicate Ascending(passes: seq<nat>) {
    forall a, b :: 0 <= a < b < |passes| ==> passes[a] < passes[b]
  }

  /** Every index in `passes` lies below `n`. */
  ghost predicate Below(passes: seq<nat>, n: nat) {
    forall a :: 0 <= a < |passes| ==> passes[a] < n
  }

  /** All admissions are granted; the k-th event of an admitted packet tells of admission `passes[k]`, in order; and the
      events add up to the body sizes of those packets and to 120 nanoseconds each. */
  ghost predicate LimitKept(l: Limits, g: Ledger, events: seq<MetricEvent>) {
    && Granted(l, g.admitted) && |g.sizes| == |g.admitted|
    && |g.passes| == PassedCount(events) && Ascending(g.passes) && Below(g.passes, |g.admitted|)
    && ByteSum(events) == SizesAt(g.sizes, g.passes)
    && LatencySum(events) == 120 * |g.passes|
  }

  /** The ledger after a decision at time `t`. */
  function Decided(g: Ledger, allowed: bool, t: nat, size: nat): Ledger {
    if allowed then g.(admitted := g.admitted + [t], sizes := g.sizes + [size]) else g
  }

  lemma AdmitKeepsLimit(l: Limits, g: Ledger, events: seq<MetricEvent>, t: nat, size: nat)
    requires LimitKept(l, g, events) && !Rejects(l, Tat(l, g.admitted), t)
    ensures LimitKept(l, Decided(g, true, t, size), events)
    ensures Tat(l, g.admitted + [t]) == Advance(l, Tat(l, g.admitted), t)
  {
    hide PassedCount, ByteSum, LatencySum, SizesAt;
    AdmitSnoc(l, g.admitted, t);
    SizesAtLonger(g.sizes, g.passes, size);
  }

  /** The event of admission `turn`, or of a rejected packet, joins the events. */
  lemma PushKeepsLimit(l: Limits, g: Ledger, events: seq<MetricEvent>, e: MetricEvent, turn: nat)
    requires LimitKept(l, g, events)
    requires !e.dropped ==>
      turn < |g.admitted| && Below(g.passes, turn) && e.packetSize == g.sizes[turn] % WORD32 && e.latencyNs == 120
    ensures LimitKept(l, if e.dropped then g else g.(passes := g.passes + [turn]), events + [e])
  {
    hide Granted, DroppedCount, ByteSum, LatencySum, SizesAt;
    SumsSnoc(events, e);
    if !e.dropped {
      SizesAtSnoc(g.sizes, g.passes, turn);
    }
  }

  lemma {:induction false} AscendingGap(passes: seq<nat>, a: nat, b: nat)
    requires Ascending(passes) && a <= b < |passes|
    ensures b - a <= passes[b] - passes[a]
  {
    if a < b {
      AscendingGap(passes, a, b - 1);
    }
  }

  /** From one passed event to a later one the intervals fit into the time between their admissions plus the
      tolerance. */
  lemma PassedKeepWindow(l: Limits, g: Ledger, events: seq<MetricEvent>, a: nat, b: nat)
    requires LimitKept(l, g, events) && a <= b < |g.passes|
    ensures (b - a) * l.interval <= g.admitted[g.passes[b]] - g.admitted[g.passes[a]] + l.tolerance
  {
    AscendingGap(g.passes, a, b);
    WindowBound(l, g.admitted, g.passes[a], g.passes[b]);
    hide Granted, PassedCount;
    FewerIntervals(b - a, g.passes[b] - g.passes[a], l.interval);
  }

  lemma PassedOfPrefix(events: seq<MetricEvent>, m: nat, n: nat)
    requires m <= n <= |events|
    ensures PassedCount(events[..m]) <= PassedCount(events[..n]) <= PassedCount(events)
  {
    SumsConcat(events[..m], events[m..n]);
    assert events[..m] + events[m..n] == events[..n];
    SumsConcat(events[..n], events[n..]);
    assert events[..n] + events[n..] == events;
  }

  /** The limiter's window bound for the passed events from the a-th to before the b-th. */
  ghost predicate WindowKept(l: Limits, g: Ledger, a: int, b: int) {
    0 <= a < b ==>
      && b <= |g.passes| && Below(g.passes, |g.admitted|)
      && (b - a - 1) * l.interval <= g.admitted[g.passes[b - 1]] - g.admitted[g.passes[a]] + l.tolerance
  }

  /** It holds for the passed events among any stretch of the events, here of a prefix of them. */
  lemma StretchKeepsWindow(l: Limits, g: Ledger, events: seq<MetricEvent>,
                           front: seq<MetricEvent>,
                           m: nat, n: nat)
    requires LimitKept(l, g, events) && front <= events && m <= n <= |front|
    ensures WindowKept(l, g, PassedCount(front[..m]), PassedCount(front[..n]))
  {
    var a, b := PassedCount(front[..m]), PassedCount(front[..n]);
    assert front[..m] == events[..m] && front[..n] == events[..n];
    PassedOfPrefix(events, m, n);
    hide PassedCount;
    if a < b {
      PassedKeepWindow(l, g, events, a, b - 1);
    }
  }
}
