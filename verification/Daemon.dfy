/** The daemon's path of a client's bytes: parser, packet, rate limiter, event queue, and the monitor behind it. */
module Daemon {
  import opened Bits
  import opened Common
  import opened Gcra
  import opened HttpSim
  import opened Monitor
  import opened Admissions
  import opened RingBuffer
  import Packets

  /** What handling a packet at time `t` does: the limiter decides by the rule, and the event joins the accepted ones
      if the queue shows room. */
  ghost predicate Handled(l: Limits, g: Ledger, accepted: seq<MetricEvent>, g': Ledger, accepted': seq<MetricEvent>,
                          room: bool, t: nat, r: Request)
  {
    var allowed := !Rejects(l, Tat(l, g.admitted), t);
    var d := Decided(g, allowed, t, r.size);
    && g' == (if allowed && room then d.(passes := d.passes + [|g.admitted|]) else d)
    && accepted' == if room then accepted + [EventOf(allowed, r)] else accepted
  }

  lemma HandledIs(l: Limits, g: Ledger, accepted: seq<MetricEvent>, g': Ledger, accepted': seq<MetricEvent>,
                  allowed: bool, room: bool, t: nat, r: Request)
    requires allowed == !Rejects(l, Tat(l, g.admitted), t)
    requires var d := Decided(g, allowed, t, r.size);
      g' == if allowed && room then d.(passes := d.passes + [|g.admitted|]) else d
    requires accepted' == if room then accepted + [EventOf(allowed, r)] else accepted
    ensures Handled(l, g, accepted, g', accepted', room, t, r)
  {
  }

  lemma HandledKeepsLimit(l: Limits, g: Ledger, accepted: seq<MetricEvent>, g': Ledger, accepted': seq<MetricEvent>,
                          room: bool, t: nat, r: Request)
    requires LimitKept(l, g, accepted) && Handled(l, g, accepted, g', accepted', room, t, r)
    ensures LimitKept(l, g', accepted')
    ensures Tat(l, g'.admitted) ==
      if Rejects(l, Tat(l, g.admitted), t) then Tat(l, g.admitted) else Advance(l, Tat(l, g.admitted), t)
  {
    var allowed := !Rejects(l, Tat(l, g.admitted), t);
    var d, e := Decided(g, allowed, t, r.size), EventOf(allowed, r);
    hide Tat, Granted, Rejects, Advance, EventOf, PassedCount, ByteSum, LatencySum, SizesAt;
    if allowed {
      AdmitKeepsLimit(l, g, accepted, t, r.size);
    }
    if room {
      PushKeepsLimit(l, d, accepted, e, |g.admitted|);
    }
  }

  /** What a packet that conforms to the earlier admissions, or does not, leaves: an admission or none, and, if there is
      room, an event that says so. */
  ghost predicate Recorded(conforms: bool, g: Ledger, accepted: seq<MetricEvent>, g': Ledger,
                           accepted': seq<MetricEvent>, room: bool, t: nat, r: Request)
  {
    && g'.admitted == (if conforms then g.admitted + [t] else g.admitted)
    && g'.sizes == (if conforms then g.sizes + [r.size] else g.sizes)
    && (!room ==> accepted' == accepted)
    && (room ==>
          && |accepted'| == |accepted| + 1 && accepted == Front(accepted')
          && var e := Last(accepted');
          && e.timestampUs == r.stamp && e.sourceNode == r.source && e.destNode == "SecureHost"
          && e.dropped == !conforms
          && e.packetSize == (if conforms then r.size % 0x1_0000_0000 else 0)
          && e.latencyNs == (if conforms then 120 else 0))
  }

  lemma HandledIsRecorded(l: Limits, g: Ledger, accepted: seq<MetricEvent>, g': Ledger, accepted': seq<MetricEvent>,
                          room: bool, t: nat, r: Request)
    requires Handled(l, g, accepted, g', accepted', room, t, r)
    ensures Recorded(Conforms(l, g.admitted, t), g, accepted, g', accepted', room, t, r)
  {
    AdmitsIffConforms(l, g.admitted, t);
    hide Tat, Rejects, Conforms, EventOf;
  }

  class Daemon {
    const limiter: GcraRateLimiter
    const queue: SpscRingBuffer<MetricEvent>
    const monitor: TelemetryMonitor
    /** The admissions, and the events the queue accepted. */
    ghost var ledger: Ledger
    ghost var accepted: seq<MetricEvent>

    /** Conservation: every accepted event has been popped or is still queued, and the bytes of the accepted events are
        the body sizes of the admitted packets they tell of. */
    ghost predicate Valid()
      reads this, limiter, queue, queue.buffer, monitor
    {
      && monitor.queue == queue && monitor.Valid()
      && limiter.tat == Tat(limiter.limits, ledger.admitted) && LimitKept(limiter.limits, ledger, accepted)
      && accepted == monitor.popped + queue.Contents()
    }

    constructor (limiter: GcraRateLimiter, queue: SpscRingBuffer<MetricEvent>, monitor: TelemetryMonitor)
      requires limiter.tat == 0 && monitor.queue == queue && monitor.Valid() && monitor.popped == [] &&
        queue.Contents() == []
      ensures Valid() && ledger == Ledger([], [], []) && accepted == []
      ensures this.limiter == limiter && this.queue == queue && this.monitor == monitor
    {
      this.limiter, this.queue, this.monitor := limiter, queue, monitor;
      ledger, accepted := Ledger([], [], []), [];
    }

    /** A packet goes through the limiter; its event is pushed whether it was admitted or not, and a full queue loses
        the event. The queue may look fuller than it is, by the `behind` latest pops. */
    method HandlePacket(size: nat, t: nat, spurious: nat, behind: nat, stamp: nat, source: string)
      requires Valid() && t + limiter.limits.tolerance + limiter.limits.interval < WORD64
      requires |queue.Contents()| + behind <= queue.capacity
      modifies this, limiter, queue`tail, queue.buffer
      ensures Valid()
      ensures Recorded(Conforms(limiter.limits, old(ledger.admitted), t), old(ledger), old(accepted), ledger, accepted,
        |old(queue.Contents())| + behind < queue.capacity, t, Request(stamp, source, size))
    {
      hide Handled, Recorded, Decided, LimitKept, Tat, Rejects, Advance, EventOf, SpscRingBuffer.Contents,
        SpscRingBuffer.Valid, TelemetryMonitor.CountersOk;
      ghost var before := queue.Contents();
      var r := Request(stamp, source, size);
      if !Rejects(limiter.limits, limiter.tat, t) {
        NoWrap(limiter.limits, t, limiter.tat, t);
      }
      var allowed := limiter.Allow(t, spurious);
      var event := EventOf(allowed, r);
      var pushed := queue.Push(event, behind);
      ledger := Decided(ledger, allowed, t, size);
      if allowed && pushed {
        ledger := ledger.(passes := ledger.passes + [|old(ledger.admitted)|]);
      }
      if pushed {
        MoveOne(monitor.popped, before, [event]);
        accepted := accepted + [event];
      }
      HandledIs(limiter.limits, old(ledger), old(accepted), ledger, accepted, allowed, pushed, t, r);
      HandledKeepsLimit(limiter.limits, old(ledger), old(accepted), ledger, accepted, pushed, t, r);
      HandledIsRecorded(limiter.limits, old(ledger), old(accepted), ledger, accepted, pushed, t, r);
    }

    /** A chunk of bytes from a client. Only a complete request whose body is a packet reaches the limiter, and every
        complete request readies the parser for the next one. */
    method OnBytes(parser: HttpSim, bytes: seq<byte>, t: nat, spurious: nat, behind: nat, stamp: nat, source: string)
      returns (complete: bool)
      requires Valid() && t + limiter.limits.tolerance + limiter.limits.interval < WORD64
      requires |queue.Contents()| + behind <= queue.capacity
      modifies this, parser, limiter, queue`tail, queue.buffer
      ensures Valid()
      ensures complete <==> Feed(old(parser.View()), bytes).state == Complete
      ensures parser.View() == if complete then READY else Feed(old(parser.View()), bytes)
      ensures var body := Feed(old(parser.View()), bytes).request.body;
        if complete && Packets.Parse(body).Ok?
        then Recorded(Conforms(limiter.limits, old(ledger.admitted), t), old(ledger), old(accepted), ledger, accepted,
               |old(queue.Contents())| + behind < queue.capacity, t, Request(stamp, source, |body|))
        else ledger == old(ledger) && accepted == old(accepted)
    {
      hide LimitKept, Tat, SpscRingBuffer.Contents, SpscRingBuffer.Valid, TelemetryMonitor.CountersOk, Recorded,
        Conforms, Feed, Packets.Parse;
      complete := parser.ParseChunk(bytes);
      if complete {
        var parsed := Packets.Deserialize(parser.request.body);
        if parsed.Ok? {
          HandlePacket(|parser.request.body|, t, spurious, behind, stamp, source);
        }
        parser.Reset();
      }
    }

    /** The monitor thread drains the queue, missing the `unseen` newest events. Packets may be handled before it
        publishes. */
    method Drain(unseen: nat) returns (processedAny: bool)
      requires Valid() && unseen <= |queue.Contents()|
      modifies monitor, queue`head
      ensures Valid() && |queue.Contents()| == unseen && monitor.covered == old(monitor.covered)
    {
      hide LimitKept, Tat, SpscRingBuffer.Contents, SpscRingBuffer.Valid, TelemetryMonitor.CountersOk;
      processedAny := monitor.Drain(unseen);
    }

    /** The monitor thread publishes if it is time. What it publishes says exactly what the events popped so far say,
        and the packets it reports as passed since the last publication obey the limiter's window bound. */
    method Publish(elapsedMs: nat) returns (published: bool)
      requires Valid()
      modifies monitor
      ensures Valid() && monitor.popped == old(monitor.popped) && old(monitor.covered) <= |monitor.popped|
      ensures published <==> elapsedMs >= 100
      ensures published ==> Summarizes(monitor.stats, monitor.popped, old(monitor.covered), elapsedMs)
      ensures WindowKept(limiter.limits, ledger,
        PassedCount(monitor.popped[..old(monitor.covered)]), PassedCount(monitor.popped))
      ensures published && |monitor.popped| < WORD64 ==>
        monitor.stats.totalPackets - monitor.stats.droppedPackets == PassedCount(monitor.popped)
    {
      hide Tat, SpscRingBuffer.Contents, SpscRingBuffer.Valid, TelemetryMonitor.CountersOk, Summarizes, WindowKept;
      StretchKeepsWindow(limiter.limits, ledger, accepted, monitor.popped, monitor.covered, |monitor.popped|);
      assert monitor.popped[..|monitor.popped|] == monitor.popped;
      hide LimitKept;
      published := monitor.PublishIfDue(elapsedMs);
      if published && |monitor.popped| < WORD64 {
        PublishedPassed(monitor.stats, monitor.popped, old(monitor.covered), elapsedMs);
      }
    }
  }

  lemma PublishedPassed(stats: AggregatedMetrics, popped: seq<MetricEvent>, n: nat, elapsedMs: nat)
    requires n <= |popped| < WORD64 && elapsedMs >= 100 && Summarizes(stats, popped, n, elapsedMs)
    ensures stats.totalPackets - stats.droppedPackets == PassedCount(popped)
  {
    hide Word, DroppedCount, ByteSum, LatencySum, Mean;
    SmallWord(|popped|);
    SmallWord(DroppedCount(popped));
  }
}
