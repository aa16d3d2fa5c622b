/** The telemetry monitor: drains the event queue and publishes cumulative statistics. */
module Monitor {
  import opened Bits
  import opened RingBuffer

  datatype MetricEvent = MetricEvent(
    timestampUs: nat, sourceNode: string, destNode: string, packetSize: nat, latencyNs: nat, dropped: bool)

  datatype AggregatedMetrics = AggregatedMetrics(
    averageLatencyNs: real, totalPackets: nat, totalBytes: nat, droppedPackets: nat, throughputKbps: real)

  /** What has been added up since the start, the bytes since the last publication only. */
  datatype Counters = Counters(latencyNs: nat, packets: nat, bytes: nat, dropped: nat)

  /** What the events say, by themselves. */
  function DroppedCount(events: seq<MetricEvent>): (n: nat)
    ensures n <= |events|
  {
    if events == [] then 0
    else DroppedCount(events[..|events| - 1]) + (if events[|events| - 1].dropped then 1 else 0)
  }

  function ByteSum(events: seq<MetricEvent>): nat {
    if events == [] then 0
    else ByteSum(events[..|events| - 1]) + (if events[|events| - 1].dropped then 0 else events[|events| - 1].packetSize)
  }

  function LatencySum(events: seq<MetricEvent>): nat {
    if events == [] then 0
    else
      var last := events[|events| - 1];
      LatencySum(events[..|events| - 1]) + (if last.dropped then 0 else last.latencyNs)
  }

  lemma SumsSnoc(events: seq<MetricEvent>, e: MetricEvent)
    ensures DroppedCount(events + [e]) == DroppedCount(events) + (if e.dropped then 1 else 0)
    ensures ByteSum(events + [e]) == ByteSum(events) + (if e.dropped then 0 else e.packetSize)
    ensures LatencySum(events + [e]) == LatencySum(events) + (if e.dropped then 0 else e.latencyNs)
  {
    assert (events + [e])[..|events|] == events;
  }

  lemma {:induction false} SumsConcat(a: seq<MetricEvent>, b: seq<MetricEvent>)
    ensures DroppedCount(a + b) == DroppedCount(a) + DroppedCount(b)
    ensures ByteSum(a + b) == ByteSum(a) + ByteSum(b)
    ensures LatencySum(a + b) == LatencySum(a) + LatencySum(b)
  {
    if b == [] {
      assert a + b == a;
    } else {
      var front, last := b[..|b| - 1], b[|b| - 1];
      SumsConcat(a, front);
      assert a + b == a + front + [last] && b == front + [last];
      SumsSnoc(a + front, last);
      SumsSnoc(front, last);
    }
  }

  /** A count kept in a 64-bit word. */
  function Word(x: nat): nat {
    x % WORD64
  }

  /** Addition of 64-bit counters. */
  function Add64(x: nat, y: nat): nat {
    Word(x + y)
  }

  /** Counting modulo the word as one goes is counting and reducing at the end. */
  lemma AddWord(x: nat, y: nat)
    ensures Add64(Word(x), y) == Word(x + y)
    ensures Add64(y, Word(x)) == Word(y + x)
  {
    AddReduced(WORD64, x, y);
  }

  lemma AddReduced(w: nat, x: nat, y: nat)
    requires w >= 1
    ensures (x % w + y) % w == (x + y) % w
  {
    var q, r := x / w, x % w;
    var q', r' := (r + y) / w, (r + y) % w;
    assert x == w * q + r && r + y == w * q' + r';
    MulDistributes(w, q, q');
    DivModIs(x + y, w, q + q', r');
  }

  lemma MulDistributes(w: nat, a: nat, b: nat)
    ensures w * (a + b) == w * a + w * b
  {
  }

  lemma SmallWord(x: nat)
    requires x < WORD64
    ensures Word(x) == x
  {
    hide Pow2;
    SmallMod(WORD64, x);
  }

  function Mean(sum: nat, count: nat): real {
    if count == 0 then 0.0 else sum as real / count as real
  }

  /** The average, times the count, is the sum; without events it is 0. */
  predicate IsMean(average: real, sum: nat, count: nat) {
    if count == 0 then average == 0.0 else average * count as real == sum as real
  }

  lemma MeanIsMean(sum: nat, count: nat)
    ensures IsMean(Mean(sum, count), sum, count)
  {
  }

  /** The counters after one more event. */
  function Counted(c: Counters, e: MetricEvent): Counters {
    var d := if e.dropped then c.(dropped := Add64(c.dropped, 1))
             else c.(latencyNs := Add64(c.latencyNs, e.latencyNs), bytes := Add64(c.bytes, e.packetSize));
    d.(packets := Add64(d.packets, 1))
  }

  /** The statistics published from these counters. */
  function Published(s: AggregatedMetrics, c: Counters, elapsedMs: nat): AggregatedMetrics
    requires elapsedMs >= 100
  {
    var elapsedSec := elapsedMs as real / 1000.0;
    AggregatedMetrics(Mean(c.latencyNs, (c.packets - c.dropped) % WORD64), c.packets, Add64(s.totalBytes, c.bytes),
      c.dropped,
      c.bytes as real * 8.0 / (elapsedSec * 1000.0))
  }

  /** The counters say what the popped events say; the first `n` of them are in the published statistics. */
  ghost predicate CountersSay(c: Counters, totalBytes: nat, popped: seq<MetricEvent>, n: nat) {
    && n <= |popped|
    && c.packets == Word(|popped|)
    && c.dropped == Word(DroppedCount(popped))
    && c.latencyNs == Word(LatencySum(popped))
    && c.bytes == Word(ByteSum(popped[n..]))
    && totalBytes == Word(ByteSum(popped[..n]))
  }

  /** Statistics that say exactly what the events say, counters being 64-bit words; the throughput is that of the
      events after the first `n`, over the elapsed time. */
  ghost predicate Summarizes(s: AggregatedMetrics, events: seq<MetricEvent>, n: nat, elapsedMs: nat)
    requires n <= |events| && elapsedMs >= 100
  {
    && s.totalPackets == Word(|events|)
    && s.droppedPackets == Word(DroppedCount(events))
    && s.totalBytes == Word(ByteSum(events))
    && (|events| < WORD64 && LatencySum(events) < WORD64 ==>
          IsMean(s.averageLatencyNs, LatencySum(events), |events| - DroppedCount(events)))
    && (ByteSum(events[n..]) < WORD64 ==> s.throughputKbps == (8 * ByteSum(events[n..])) as real / elapsedMs as real)
  }

  lemma CountersStart()
    ensures CountersSay(Counters(0, 0, 0, 0), 0, [], 0)
  {
    hide Word;
    SmallWord(0);
  }

  /** Counting an event keeps the counters right. */
  lemma CountKeepsCounters(c: Counters, totalBytes: nat, popped: seq<MetricEvent>, n: nat, e: MetricEvent)
    requires CountersSay(c, totalBytes, popped, n)
    ensures CountersSay(Counted(c, e), totalBytes, popped + [e], n)
  {
    hide LatencySum, DroppedCount, ByteSum, Word, Add64;
    AddWord(|popped|, 1);
    AddWord(DroppedCount(popped), 1);
    AddWord(LatencySum(popped), e.latencyNs);
    AddWord(ByteSum(popped[n..]), e.packetSize);
    SumsSnoc(popped, e);
    SumsSnoc(popped[n..], e);
    SplitSnoc(popped, n, e);
  }

  lemma SplitSnoc<T>(s: seq<T>, n: nat, x: T)
    requires n <= |s|
    ensures (s + [x])[n..] == s[n..] + [x] && (s + [x])[..n] == s[..n]
  {
  }

  lemma BytesAddUp(popped: seq<MetricEvent>, n: nat)
    requires n <= |popped|
    ensures Add64(Word(ByteSum(popped[..n])), Word(ByteSum(popped[n..]))) == Word(ByteSum(popped))
  {
    hide ByteSum, LatencySum, DroppedCount, Word, Add64;
    assert popped[..n] + popped[n..] == popped;
    SumsConcat(popped[..n], popped[n..]);
    var a, b := ByteSum(popped[..n]), ByteSum(popped[n..]);
    AddWord(a, Word(b));
    AddWord(b, a);
    Add64Is(a, Word(b));
    Add64Is(a, b);
  }

  lemma Add64Is(x: nat, y: nat)
    ensures Add64(x, y) == Word(x + y)
  {
  }

  lemma MeanIsExact(popped: seq<MetricEvent>)
    requires |popped| < WORD64 && LatencySum(popped) < WORD64
    ensures Mean(Word(LatencySum(popped)), (Word(|popped|) - Word(DroppedCount(popped))) % WORD64) ==
      Mean(LatencySum(popped), |popped| - DroppedCount(popped))
  {
    hide Pow2, LatencySum, Mean, Word;
    SmallWord(|popped|);
    SmallWord(DroppedCount(popped));
    SmallMod(WORD64, |popped| - DroppedCount(popped));
    SmallWord(LatencySum(popped));
  }

  lemma ThroughputIsExact(bytes: nat, elapsedMs: nat)
    requires elapsedMs >= 100
    ensures bytes as real * 8.0 / (elapsedMs as real / 1000.0 * 1000.0) == (8 * bytes) as real / elapsedMs as real
  {
    assert elapsedMs as real / 1000.0 * 1000.0 == elapsedMs as real;
  }

  /** Publishing says what all popped events say, and starts the byte count anew. */
  lemma PublishSummarizes(s: AggregatedMetrics, c: Counters, popped: seq<MetricEvent>, n: nat, elapsedMs: nat)
    requires CountersSay(c, s.totalBytes, popped, n) && elapsedMs >= 100
    ensures Summarizes(Published(s, c, elapsedMs), popped, n, elapsedMs)
    ensures CountersSay(c.(bytes := 0), Published(s, c, elapsedMs).totalBytes, popped, |popped|)
  {
    hide Mean, LatencySum, DroppedCount, Word, Add64;
    BytesAddUp(popped, n);
    assert popped[|popped|..] == [] && popped[..|popped|] == popped;
    assert ByteSum([]) == 0;
    hide ByteSum;
    SmallWord(0);
    if |popped| < WORD64 && LatencySum(popped) < WORD64 {
      MeanIsExact(popped);
      MeanIsMean(LatencySum(popped), |popped| - DroppedCount(popped));
    }
    if ByteSum(popped[n..]) < WORD64 {
      SmallWord(ByteSum(popped[n..]));
      ThroughputIsExact(c.bytes, elapsedMs);
    }
  }

  lemma MoveOne<T>(front: seq<T>, middle: seq<T>, rest: seq<T>)
    ensures front + middle + rest == front + (middle + rest)
  {
  }

  class TelemetryMonitor {
    const queue: SpscRingBuffer<MetricEvent>
    var stats: AggregatedMetrics
    var cumulativeLatencyNs: nat
    var cumulativePackets: nat
    var cumulativeBytes: nat
    var cumulativeDropped: nat
    /** Every event popped so far, and how many of them the last publication covered. */
    ghost var popped: seq<MetricEvent>
    ghost var covered: nat

    ghost predicate CountersOk()
      reads this
    {
      var c := Counters(cumulativeLatencyNs, cumulativePackets, cumulativeBytes, cumulativeDropped);
      CountersSay(c, stats.totalBytes, popped, covered)
    }

    ghost predicate Valid()
      reads this, queue
    {
      queue.Valid() && CountersOk() && covered <= |popped|
    }

    constructor (queue: SpscRingBuffer<MetricEvent>)
      requires queue.Valid()
      ensures Valid() && this.queue == queue && popped == [] && covered == 0
    {
      this.queue := queue;
      stats := AggregatedMetrics(0.0, 0, 0, 0, 0.0);
      cumulativeLatencyNs, cumulativePackets, cumulativeBytes, cumulativeDropped := 0, 0, 0, 0;
      popped, covered := [], 0;
      new;
      CountersStart();
    }

    /** Counts one popped event. */
    method Count(event: MetricEvent)
      requires CountersOk()
      modifies this
      ensures CountersOk() && popped == old(popped) + [event] && covered == old(covered) && stats == old(stats)
    {
      hide CountersSay, Add64;
      ghost var c := Counters(cumulativeLatencyNs, cumulativePackets, cumulativeBytes, cumulativeDropped);
      CountKeepsCounters(c, stats.totalBytes, popped, covered, event);
      if !event.dropped {
        cumulativeLatencyNs := Add64(cumulativeLatencyNs, event.latencyNs);
        cumulativeBytes := Add64(cumulativeBytes, event.packetSize);
      } else {
        cumulativeDropped := Add64(cumulativeDropped, 1);
      }
      cumulativePackets := Add64(cumulativePackets, 1);
      popped := popped + [event];
    }

    /** Pops events until the queue looks empty. The load that ends it may miss the `unseen` newest events, and earlier
        loads as many; those stay queued. */
    method Drain(unseen: nat) returns (processedAny: bool)
      requires Valid() && unseen <= |queue.Contents()|
      modifies this, queue`head
      ensures Valid() && stats == old(stats) && covered == old(covered)
      ensures popped + queue.Contents() == old(popped) + old(queue.Contents()) && |queue.Contents()| == unseen
      ensures processedAny <==> |old(queue.Contents())| > unseen
    {
      hide CountersOk, SpscRingBuffer.Valid, SpscRingBuffer.Contents;
      processedAny := false;
      ghost var all, most := popped + queue.Contents(), |queue.Contents()|;
      while true
        invariant Valid() && stats == old(stats) && covered == old(covered)
        invariant popped + queue.Contents() == all && unseen <= |queue.Contents()| <= most
        invariant processedAny <==> |queue.Contents()| < most
        decreases |queue.Contents()|
      {
        ghost var before, front := queue.Contents(), popped;
        var ok, event := queue.Pop(unseen);
        if !ok {
          break;
        }
        processedAny := true;
        assert before == [event] + queue.Contents();
        MoveOne(front, [event], queue.Contents());
        Count(event);
      }
    }

    /** Publishes the statistics when at least 100 milliseconds have passed since the last time. */
    method PublishIfDue(elapsedMs: nat) returns (published: bool)
      requires CountersOk()
      modifies this
      ensures CountersOk() && popped == old(popped)
      ensures published <==> elapsedMs >= 100
      ensures published ==> Summarizes(stats, popped, old(covered), elapsedMs) && covered == |popped|
      ensures !published ==> stats == old(stats) && covered == old(covered)
    {
      if elapsedMs < 100 {
        return false;
      }
      hide CountersSay, Summarizes, Add64;
      ghost var c := Counters(cumulativeLatencyNs, cumulativePackets, cumulativeBytes, cumulativeDropped);
      PublishSummarizes(stats, c, popped, covered, elapsedMs);
      var successful := (cumulativePackets - cumulativeDropped) % WORD64;
      var average := if successful > 0 then cumulativeLatencyNs as real / successful as real else 0.0;
      var elapsedSec := elapsedMs as real / 1000.0;
      var throughput := if elapsedSec > 0.0 then cumulativeBytes as real * 8.0 / (elapsedSec * 1000.0) else 0.0;
      stats := AggregatedMetrics(average, cumulativePackets, Add64(stats.totalBytes, cumulativeBytes),
        cumulativeDropped, throughput);
      cumulativeBytes := 0;
      covered := |popped|;
      return true;
    }
  }
}
