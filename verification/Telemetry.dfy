/** Telemetry end to end, step by step: the event loop decides about packets and pushes their events, the monitor thread
    pops and counts them and publishes, and their steps interleave in any way.

    The ring between them takes the steps of `RingProtocol`, with 64-bit counters and stale reads. */
module Telemetry {
  import opened Bits
  import opened Common
  import opened Gcra
  import opened RingProtocol
  import opened Monitor
  import opened Admissions

  /** What does not change during a run: the limits, a bound on clock samples, and the ring's capacity and first
      contents. */
  datatype Setting = Setting(limits: Limits, horizon: nat, capacity: nat, slots: seq<MetricEvent>)

  /** Where the monitor thread stands outside a pop: draining, about to count a popped event, or done with draining. */
  datatype Reader = Draining | Counting(event: MetricEvent) | Drained

  /** A publication: its statistics, the time since the last one, and the popped events it adds and covers. */
  datatype Report = Report(stats: AggregatedMetrics, elapsedMs: nat, since: nat, count: nat)

  /** `arrivals`, `requests` and `decided` list, packet by packet, the clock sample it was decided at, what was asked
      and the event made of it; `refused` are the events a full ring lost, and the k-th pushed event is
      `decided[origins[k]]`. `pending` is the event the event loop is pushing, decided after `turn` admissions. */
  datatype State = State(
    actions: seq<Action<MetricEvent>>,
    tat: nat, ledger: Ledger,
    arrivals: seq<nat>, requests: seq<Request>, decided: seq<MetricEvent>,
    pending: Option<MetricEvent>, turn: nat, origins: seq<nat>, refused: seq<MetricEvent>,
    reader: Reader, counters: Counters, stats: AggregatedMetrics, covered: nat, reports: seq<Report>)

  datatype Move =
    | Decide(t: nat, request: Request)
    | OnRing(action: Action<MetricEvent>)
    | CountEvent
    | Look(elapsedMs: nat)

  ghost predicate Good(c: Setting) {
    && GoodCapacity(c.capacity) && |c.slots| == c.capacity
    && c.horizon + c.limits.tolerance + c.limits.interval < WORD64
  }

  ghost predicate Runs(c: Setting, s: State) {
    Good(c) && CanRun(WORD64, c.capacity, c.slots, s.actions)
  }

  /** The ring after the steps taken on it. */
  ghost function RingOf(c: Setting, s: State): Ring<MetricEvent>
    requires Runs(c, s)
  {
    After(WORD64, c.capacity, c.slots, s.actions)
  }

  /** The event loop pushes the event it decided, and the monitor pops only while it drains. */
  predicate Turn(s: State, a: Action<MetricEvent>) {
    match a
    case PushStart(e) => s.pending == Some(e)
    case PushLoadHead(_) => true
    case PushFull => true
    case PushWrite => true
    case PushStore => true
    case _ => s.reader.Draining?
  }

  /** The decision about a packet: the limiter's, as one step; its threads are the subject of `GcraThreads`. */
  function AfterDecision(l: Limits, s: State, t: nat, r: Request): State {
    var allowed := !Rejects(l, s.tat, t);
    var e := EventOf(allowed, r);
    s.(tat := if allowed then Advance(l, s.tat, t) % WORD64 else s.tat,
       ledger := Decided(s.ledger, allowed, t, r.size),
       arrivals := s.arrivals + [t], requests := s.requests + [r], decided := s.decided + [e],
       pending := Some(e), turn := |s.ledger.admitted|)
  }

  /** The item the producer is pushing, and the one the consumer has taken out of its slot. */
  ghost function Pushing(ring: Ring<MetricEvent>): Option<MetricEvent> {
    if ring.producer.Resting? then None else Some(ring.producer.item)
  }

  ghost function Popping(ring: Ring<MetricEvent>): Option<MetricEvent> {
    if ring.consumer.Taken? then Some(ring.consumer.item) else None
  }

  /** A step that ends a push or a pop has the item at hand. */
  predicate AtHand(a: Action<MetricEvent>, pushing: Option<MetricEvent>, popping: Option<MetricEvent>) {
    (a.PushFull? || a.PushStore? ==> pushing.Some?) && (a.PopStore? ==> popping.Some?)
  }

  function AfterRingStep(s: State, a: Action<MetricEvent>, pushing: Option<MetricEvent>,
                         popping: Option<MetricEvent>): State
    requires AtHand(a, pushing, popping)
  {
    var s1 := s.(actions := s.actions + [a]);
    match a
    case PushFull => s1.(pending := None, refused := s.refused + [pushing.value])
    case PushStore =>
      s1.(pending := None, origins := s.origins + [if s.decided == [] then 0 else |s.decided| - 1],
          ledger := if pushing.value.dropped then s.ledger else s.ledger.(passes := s.ledger.passes + [s.turn]))
    case PopStore => s1.(reader := Counting(popping.value))
    case PopEmpty => s1.(reader := Drained)
    case _ => s1
  }

  ghost function AfterLook(s: State, popped: nat, elapsedMs: nat): State {
    if elapsedMs < 100 then s.(reader := Draining)
    else
      var stats := Published(s.stats, s.counters, elapsedMs);
      s.(reader := Draining, counters := s.counters.(bytes := 0), stats := stats, covered := popped,
         reports := s.reports + [Report(stats, elapsedMs, s.covered, popped)])
  }

  ghost predicate Step(c: Setting, s: State, m: Move, s': State)
    requires Runs(c, s)
  {
    match m
    case Decide(t, r) =>
      s.pending.None? && t <= c.horizon && s' == AfterDecision(c.limits, s, t, r)
    case OnRing(a) =>
      var ring := RingOf(c, s);
      // An enabled step that ends a push or a pop always has its item at hand.
      && Turn(s, a) && Enabled(WORD64, c.capacity, ring, a)
      && AtHand(a, Pushing(ring), Popping(ring)) && s' == AfterRingStep(s, a, Pushing(ring), Popping(ring))
    case CountEvent =>
      s.reader.Counting? && s' == s.(counters := Counted(s.counters, s.reader.event), reader := Draining)
    case Look(elapsedMs) =>
      s.reader.Drained? && s' == AfterLook(s, |RingOf(c, s).popped|, elapsedMs)
  }

  const NO_STATS := AggregatedMetrics(0.0, 0, 0, 0, 0.0)

  const START := State([], 0, Ledger([], [], []), [], [], [], None, 0, [], [], Draining, Counters(0, 0, 0, 0), NO_STATS,
    0, [])

  ghost predicate Next(c: Setting, s: State, s': State) {
    Runs(c, s) && exists m :: Step(c, s, m, s')
  }

  /** A run of both threads. */
  ghost predicate IsRun(c: Setting, run: seq<State>) {
    run != [] && if |run| == 1 then run[0] == START else IsRun(c, Front(run)) && Next(c, Last(Front(run)), Last(run))
  }

  // ----- the invariant

  /** The popped events already counted. */
  ghost predicate CountedOk(s: State, popped: seq<MetricEvent>) {
    match s.reader
    case Counting(e) => popped != [] && Last(popped) == e && CountersSay(s.counters, s.stats.totalBytes,
      Front(popped), s.covered)
    case _ => CountersSay(s.counters, s.stats.totalBytes, popped, s.covered)
  }

  /** A report says exactly what the events popped before it say. */
  ghost predicate ReportOk(r: Report, popped: seq<MetricEvent>) {
    r.elapsedMs >= 100 && r.since <= r.count <= |popped| && Summarizes(r.stats, popped[..r.count], r.since, r.elapsedMs)
  }

  ghost predicate ReportsOk(s: State, popped: seq<MetricEvent>) {
    && (forall i :: 0 <= i < |s.reports| ==> ReportOk(s.reports[i], popped))
    && (forall i, j :: 0 <= i < j < |s.reports| ==> s.reports[i].count <= s.reports[j].count)
    && (forall i :: 0 <= i < |s.reports| ==> s.reports[i].count <= s.covered)
  }

  /** What the event loop knows of the event it is pushing: it is the one decided last, and not pushed yet. */
  ghost predicate PendingOk(s: State, pushing: Option<MetricEvent>) {
    && (pushing.None? || s.pending == pushing)
    && (s.pending.Some? ==>
          var e, g := s.pending.value, s.ledger;
          && s.decided != [] && Last(s.decided) == e && Below(s.origins, |s.decided| - 1)
          && (!e.dropped ==>
                && s.turn < |g.admitted| == |g.sizes| && Below(g.passes, s.turn)
                && e.packetSize == g.sizes[s.turn] % WORD32 && e.latencyNs == 120))
  }

  /** The pushed events are decided ones, in order. */
  ghost predicate OriginsOk(s: State, pushed: seq<MetricEvent>) {
    && |s.origins| == |pushed| && Ascending(s.origins) && Below(s.origins, |s.decided|)
    && forall k :: 0 <= k < |pushed| ==> pushed[k] == s.decided[s.origins[k]]
  }

  /** The body sizes asked about. */
  function Sizes(requests: seq<Request>): (sizes: seq<nat>)
    ensures |sizes| == |requests| && forall i :: 0 <= i < |requests| ==> sizes[i] == requests[i].size
  {
    seq(|requests|, i requires 0 <= i < |requests| => requests[i].size)
  }

  /** Every packet was decided as the sequential limiter decides the clock samples, its event says so, and the
      admissions are those of the packets with a positive verdict. */
  ghost predicate DecidedOk(l: Limits, s: State) {
    && |s.arrivals| == |s.requests| == |s.decided| && s.tat == TatFrom(l, 0, s.arrivals)
    && var verdicts := Decisions(l, 0, s.arrivals);
    && (forall i :: 0 <= i < |s.decided| ==> Tells(s.decided[i], verdicts[i], s.requests[i]))
    && s.ledger.admitted == Chosen(s.arrivals, verdicts) && s.ledger.sizes == Chosen(Sizes(s.requests), verdicts)
  }

  /** Each decided event has been pushed, has been refused, or is being pushed. */
  ghost predicate Conserved(s: State, pushed: seq<MetricEvent>) {
    multiset(s.decided) == multiset(pushed) + multiset(s.refused) +
      match s.pending { case None => multiset{} case Some(e) => multiset{e} }
  }

  ghost predicate Inv(c: Setting, s: State) {
    && Runs(c, s)
    && var ring := RingOf(c, s);
    && s.tat == Tat(c.limits, s.ledger.admitted) && LimitKept(c.limits, s.ledger, ring.pushed)
    && PendingOk(s, Pushing(ring)) && Conserved(s, ring.pushed) && OriginsOk(s, ring.pushed) && DecidedOk(c.limits, s)
    && (s.reader.Draining? || ring.consumer.Waiting?)
    && CountedOk(s, ring.popped) && ReportsOk(s, ring.popped)
  }

  lemma StartInv(c: Setting)
    requires Good(c)
    ensures Inv(c, START)
  {
    CountersStart();
    hide GoodCapacity, Word;
    assert DroppedCount([]) == 0;
  }

  /** A decision keeps the record of decisions. */
  lemma DecisionRecorded(l: Limits, s: State, t: nat, r: Request)
    requires DecidedOk(l, s)
    requires !Rejects(l, s.tat, t) ==> Advance(l, s.tat, t) < WORD64
    ensures DecidedOk(l, AfterDecision(l, s, t, r))
  {
    var s' := AfterDecision(l, s, t, r);
    var verdict := !Rejects(l, s.tat, t);
    DecisionsSnoc(l, 0, s.arrivals, t);
    ChosenSnoc(s.arrivals, Decisions(l, 0, s.arrivals), t, verdict);
    ChosenSnoc(Sizes(s.requests), Decisions(l, 0, s.arrivals), r.size, verdict);
    assert Sizes(s.requests + [r]) == Sizes(s.requests) + [r.size];
    hide Chosen, Decisions, TatFrom, Rejects, Advance, Sizes, Pow2;
    if verdict {
      SmallMod(WORD64, Advance(l, s.tat, t));
    }
  }

  lemma DecisionPends(l: Limits, s: State, t: nat, r: Request)
    requires s.pending.None? && |s.ledger.sizes| == |s.ledger.admitted| && Below(s.ledger.passes, |s.ledger.admitted|)
    requires Below(s.origins, |s.decided|)
    ensures PendingOk(AfterDecision(l, s, t, r), None)
  {
    hide Pow2, Rejects, Advance;
  }

  lemma DecisionConserves(l: Limits, s: State, t: nat, r: Request, pushed: seq<MetricEvent>)
    requires s.pending.None? && Conserved(s, pushed) && OriginsOk(s, pushed)
    ensures Conserved(AfterDecision(l, s, t, r), pushed) && OriginsOk(AfterDecision(l, s, t, r), pushed)
  {
    hide Pow2, Rejects, Advance, EventOf;
  }

  lemma DecisionKeepsLimit(l: Limits, horizon: nat, s: State, pushed: seq<MetricEvent>, t: nat, r: Request)
    requires s.tat == Tat(l, s.ledger.admitted) && LimitKept(l, s.ledger, pushed)
    requires t <= horizon && horizon + l.tolerance + l.interval < WORD64
    ensures var s' := AfterDecision(l, s, t, r);
      s'.tat == Tat(l, s'.ledger.admitted) && LimitKept(l, s'.ledger, pushed)
    ensures !Rejects(l, s.tat, t) ==> Advance(l, s.tat, t) < WORD64
  {
    hide Pow2, LimitKept, Tat, Rejects, Advance, EventOf;
    if !Rejects(l, s.tat, t) {
      NoWrap(l, horizon, s.tat, t);
      AdmitKeepsLimit(l, s.ledger, pushed, t, r.size);
    }
  }

  lemma DecideKeepsInv(c: Setting, s: State, m: Move, s': State)
    requires Inv(c, s) && Step(c, s, m, s') && m.Decide?
    ensures Inv(c, s')
  {
    hide Pow2, GoodCapacity, CanRun, RingProtocol.After, Tat, Rejects, Advance, EventOf, CountersSay, ReportOk,
      Conserved, DecidedOk;
    var l, t, r, ring := c.limits, m.t, m.request, RingOf(c, s);
    assert |s.ledger.sizes| == |s.ledger.admitted| && Below(s.ledger.passes, |s.ledger.admitted|);
    assert Below(s.origins, |s.decided|) && Pushing(ring) == None;
    hide LimitKept, PendingOk, OriginsOk;
    DecisionKeepsLimit(l, c.horizon, s, ring.pushed, t, r);
    DecisionRecorded(l, s, t, r);
    DecisionPends(l, s, t, r);
    DecisionConserves(l, s, t, r, ring.pushed);
  }

  lemma CountedNext(s: State, popped: seq<MetricEvent>)
    requires s.reader.Counting? && CountedOk(s, popped) && ReportsOk(s, popped)
    ensures var s' := s.(counters := Counted(s.counters, s.reader.event), reader := Draining);
      CountedOk(s', popped) && ReportsOk(s', popped)
  {
    hide CountersSay, ReportOk, Counted;
    assert Front(popped) + [Last(popped)] == popped;
    CountKeepsCounters(s.counters, s.stats.totalBytes, Front(popped), s.covered, s.reader.event);
  }

  lemma CountKeepsInv(c: Setting, s: State, s': State)
    requires Inv(c, s) && Step(c, s, CountEvent, s')
    ensures Inv(c, s')
  {
    hide LimitKept, CountedOk, ReportsOk, Counted, Good, CanRun, RingProtocol.After, Tat;
    CountedNext(s, RingOf(c, s).popped);
  }

  lemma LookedNext(s: State, popped: seq<MetricEvent>, elapsedMs: nat)
    requires s.reader.Drained? && CountedOk(s, popped) && ReportsOk(s, popped)
    ensures var s' := AfterLook(s, |popped|, elapsedMs); CountedOk(s', popped) && ReportsOk(s', popped)
  {
    assert s.covered <= |popped|;
    hide CountersSay, Summarizes, Published;
    if elapsedMs >= 100 {
      assert popped[..|popped|] == popped;
      PublishSummarizes(s.stats, s.counters, popped, s.covered, elapsedMs);
    }
  }

  lemma LookKeepsInv(c: Setting, s: State, elapsedMs: nat, s': State)
    requires Inv(c, s) && Step(c, s, Look(elapsedMs), s')
    ensures Inv(c, s')
  {
    hide LimitKept, CountedOk, ReportsOk, Published, Good, CanRun, RingProtocol.After, Tat;
    LookedNext(s, RingOf(c, s).popped, elapsedMs);
  }

  /** Later pops do not touch what a report covers. */
  lemma ReportsStay(s: State, popped: seq<MetricEvent>, e: MetricEvent)
    requires ReportsOk(s, popped)
    ensures ReportsOk(s, popped + [e])
  {
    hide Summarizes;
    forall i | 0 <= i < |s.reports|
      ensures ReportOk(s.reports[i], popped + [e])
    {
      assert (popped + [e])[..s.reports[i].count] == popped[..s.reports[i].count];
    }
  }

  /** What a ring step means for the items: it starts, continues or ends a push or a pop. */
  ghost predicate Passes(a: Action<MetricEvent>, pushing: Option<MetricEvent>, popping: Option<MetricEvent>,
                         pushing': Option<MetricEvent>)
  {
    && AtHand(a, pushing, popping)
    && pushing' == match a {
         case PushStart(e) => Some(e) case PushFull => None case PushStore => None case _ => pushing }
  }

  lemma RingStepPasses(capacity: nat, ring: Ring<MetricEvent>, a: Action<MetricEvent>)
    requires WellFormed(capacity, ring) && Enabled(WORD64, capacity, ring, a)
    ensures var r := Do(WORD64, capacity, ring, a);
      && Passes(a, Pushing(ring), Popping(ring), Pushing(r))
      && r.pushed == (if a.PushStore? then ring.pushed + [ring.producer.item] else ring.pushed)
      && r.popped == (if a.PopStore? then ring.popped + [ring.consumer.item] else ring.popped)
      && (IsPush(a) ==> r.consumer == ring.consumer) && (a.PopEmpty? || a.PopStore? ==> r.consumer.Waiting?)
  {
    hide Slot, Inc, Full, Minus;
  }

  lemma LimitStays(l: Limits, s: State, a: Action<MetricEvent>, pushing: Option<MetricEvent>,
                   popping: Option<MetricEvent>, pushed: seq<MetricEvent>)
    requires LimitKept(l, s.ledger, pushed) && PendingOk(s, pushing) && AtHand(a, pushing, popping)
    ensures var s' := AfterRingStep(s, a, pushing, popping);
      LimitKept(l, s'.ledger, if a.PushStore? then pushed + [pushing.value] else pushed)
  {
    hide LimitKept;
    if a.PushStore? {
      PushKeepsLimit(l, s.ledger, pushed, pushing.value, s.turn);
    }
  }

  lemma PendingStays(s: State, a: Action<MetricEvent>, pushing: Option<MetricEvent>, popping: Option<MetricEvent>,
                     pushing': Option<MetricEvent>)
    requires PendingOk(s, pushing) && Passes(a, pushing, popping, pushing') && Turn(s, a)
    ensures PendingOk(AfterRingStep(s, a, pushing, popping), pushing')
  {
  }

  lemma ConservedStays(s: State, a: Action<MetricEvent>, pushing: Option<MetricEvent>, popping: Option<MetricEvent>,
                       pushed: seq<MetricEvent>)
    requires Conserved(s, pushed) && PendingOk(s, pushing) && AtHand(a, pushing, popping)
    ensures Conserved(AfterRingStep(s, a, pushing, popping), if a.PushStore? then pushed + [pushing.value] else pushed)
  {
  }

  lemma OriginsSnoc(origins: seq<nat>, decided: seq<MetricEvent>, pushed: seq<MetricEvent>)
    requires decided != [] && |origins| == |pushed| && Ascending(origins) && Below(origins, |decided| - 1)
    requires forall k :: 0 <= k < |pushed| ==> origins[k] < |decided| && pushed[k] == decided[origins[k]]
    ensures var origins', pushed' := origins + [|decided| - 1], pushed + [Last(decided)];
      && Ascending(origins') && Below(origins', |decided|)
      && forall k :: 0 <= k < |pushed'| ==> origins'[k] < |decided| && pushed'[k] == decided[origins'[k]]
  {
  }

  lemma OriginsStay(s: State, a: Action<MetricEvent>, pushing: Option<MetricEvent>, popping: Option<MetricEvent>,
                    pushed: seq<MetricEvent>)
    requires OriginsOk(s, pushed) && PendingOk(s, pushing) && AtHand(a, pushing, popping)
    ensures OriginsOk(AfterRingStep(s, a, pushing, popping), if a.PushStore? then pushed + [pushing.value] else pushed)
  {
    if a.PushStore? {
      OriginsSnoc(s.origins, s.decided, pushed);
    }
  }

  /** Ring steps decide nothing. */
  lemma DecidedStays(l: Limits, s: State, a: Action<MetricEvent>, pushing: Option<MetricEvent>,
                     popping: Option<MetricEvent>)
    requires DecidedOk(l, s) && AtHand(a, pushing, popping)
    ensures DecidedOk(l, AfterRingStep(s, a, pushing, popping))
  {
    hide Tells, Chosen, Decisions, TatFrom, Sizes;
    assert AfterRingStep(s, a, pushing, popping).ledger.admitted == s.ledger.admitted;
  }

  lemma CountedStays(s: State, a: Action<MetricEvent>, pushing: Option<MetricEvent>, popping: Option<MetricEvent>,
                     popped: seq<MetricEvent>)
    requires CountedOk(s, popped) && ReportsOk(s, popped) && AtHand(a, pushing, popping) && Turn(s, a)
    ensures var s' := AfterRingStep(s, a, pushing, popping);
      var popped' := if a.PopStore? then popped + [popping.value] else popped;
      CountedOk(s', popped') && ReportsOk(s', popped')
  {
    hide CountersSay, ReportOk;
    if a.PopStore? {
      ReportsStay(s, popped, popping.value);
      assert Front(popped + [popping.value]) == popped;
    }
  }

  lemma RingStepKeepsInv(c: Setting, s: State, a: Action<MetricEvent>, s': State)
    requires Inv(c, s) && Step(c, s, OnRing(a), s')
    ensures Inv(c, s')
  {
    var ring := RingOf(c, s);
    var pushing, popping := Pushing(ring), Popping(ring);
    hide CanRun, GoodCapacity, Enabled, Do, LimitKept, CountedOk, ReportsOk, PendingOk, Conserved, OriginsOk, DecidedOk,
      Tat, Passes;
    NextAction(WORD64, c.capacity, c.slots, s.actions, a);
    RingStepPasses(c.capacity, ring, a);
    LimitStays(c.limits, s, a, pushing, popping, ring.pushed);
    PendingStays(s, a, pushing, popping, Pushing(RingOf(c, s')));
    ConservedStays(s, a, pushing, popping, ring.pushed);
    OriginsStay(s, a, pushing, popping, ring.pushed);
    DecidedStays(c.limits, s, a, pushing, popping);
    CountedStays(s, a, pushing, popping, ring.popped);
  }

  lemma StepKeepsInv(c: Setting, s: State, m: Move, s': State)
    requires Inv(c, s) && Step(c, s, m, s')
    ensures Inv(c, s')
  {
    hide Inv, Step;
    match m
    case Decide(_, _) => DecideKeepsInv(c, s, m, s');
    case OnRing(a) => RingStepKeepsInv(c, s, a, s');
    case CountEvent => CountKeepsInv(c, s, s');
    case Look(elapsedMs) => LookKeepsInv(c, s, elapsedMs, s');
  }

  lemma {:induction false} InvOnRuns(c: Setting, run: seq<State>)
    requires Good(c) && IsRun(c, run)
    ensures Inv(c, Last(run))
    decreases |run|
  {
    hide Inv, Good;
    if |run| == 1 {
      StartInv(c);
    } else {
      InvOnRuns(c, Front(run));
      assert Next(c, Last(Front(run)), Last(run));
      var m :| Step(c, Last(Front(run)), m, Last(run));
      StepKeepsInv(c, Last(Front(run)), m, Last(run));
    }
  }

  /** Conservation. However the steps of the two threads interleave, every decided event has been pushed, was refused by
      a full ring, or is being pushed, once each; the pushed events are, in order, those popped and those still in the
      ring's slots; and every publication says exactly what the events popped before it say. */
  lemma TelemetryConserved(c: Setting, run: seq<State>)
    requires Good(c) && IsRun(c, run)
    ensures var s := Last(run);
      && Runs(c, s)
      && var ring := RingOf(c, s);
      && Conserved(s, ring.pushed)
      && |ring.popped| <= |ring.pushed| && ring.pushed == ring.popped + Unread(c.capacity, ring)
      && forall i :: 0 <= i < |s.reports| ==> ReportOk(s.reports[i], ring.popped)
  {
    var s := Last(run);
    InvOnRuns(c, run);
    hide GoodCapacity, CanRun, LimitKept, Conserved, ReportOk, CountersSay, Tat;
    PushedIsPoppedAndUnread(c.capacity, c.slots, s.actions);
  }

  /** The packets that a publication reports as passed. */
  function PassedOf(stats: AggregatedMetrics): int {
    stats.totalPackets - stats.droppedPackets
  }

  lemma ReportPassed(r: Report, popped: seq<MetricEvent>)
    requires ReportOk(r, popped) && |popped| < WORD64
    ensures r.count <= |popped| && PassedOf(r.stats) == PassedCount(popped[..r.count])
  {
    hide Word, DroppedCount, ByteSum, LatencySum, Mean;
    SmallWord(r.count);
    SmallWord(DroppedCount(popped[..r.count]));
  }

  lemma ReportsKeepWindow(l: Limits, s: State, pushed: seq<MetricEvent>, popped: seq<MetricEvent>, i: nat, j: nat)
    requires LimitKept(l, s.ledger, pushed) && popped <= pushed && ReportsOk(s, popped)
    requires i <= j < |s.reports| && |popped| < WORD64
    ensures WindowKept(l, s.ledger, PassedOf(s.reports[i].stats), PassedOf(s.reports[j].stats))
    ensures WindowKept(l, s.ledger, 0, PassedOf(s.reports[j].stats))
  {
    var first, last := s.reports[i], s.reports[j];
    assert ReportOk(first, popped) && ReportOk(last, popped) && first.count <= last.count;
    hide LimitKept, WindowKept, ReportOk, ReportsOk, PassedOf, DroppedCount;
    ReportPassed(first, popped);
    ReportPassed(last, popped);
    StretchKeepsWindow(l, s.ledger, pushed, popped, first.count, last.count);
    StretchKeepsWindow(l, s.ledger, pushed, popped, 0, last.count);
    NoneOfNone(popped);
  }

  lemma NoneOfNone(popped: seq<MetricEvent>)
    ensures PassedCount(popped[..0]) == 0
  {
  }

  /** The window bound from publication to publication. Of the packets that a later publication reports as passed and an
      earlier one does not, the intervals fit into the time between the first and the last admission of them plus the
      tolerance; so do those of all packets that one publication reports. */
  lemma PublishedKeepWindow(c: Setting, run: seq<State>, i: nat, j: nat)
    requires Good(c) && IsRun(c, run) && i <= j < |Last(run).reports|
    ensures var s := Last(run); var l, reports := c.limits, s.reports;
      Runs(c, s) && (|RingOf(c, s).popped| < WORD64 ==>
        && WindowKept(l, s.ledger, PassedOf(reports[i].stats), PassedOf(reports[j].stats))
        && WindowKept(l, s.ledger, 0, PassedOf(reports[j].stats)))
  {
    var s := Last(run);
    InvOnRuns(c, run);
    hide IsRun, Good, GoodCapacity, CanRun, LimitKept, WindowKept, Conserved, ReportsOk, CountedOk, PendingOk, Tat;
    PoppedIsPrefix(c, s);
    if |RingOf(c, s).popped| < WORD64 {
      ReportsKeepWindow(c.limits, s, RingOf(c, s).pushed, RingOf(c, s).popped, i, j);
    }
  }

  lemma PoppedIsPrefix(c: Setting, s: State)
    requires Runs(c, s)
    ensures RingOf(c, s).popped <= RingOf(c, s).pushed
  {
    hide GoodCapacity, CanRun;
    FirstInFirstOut(c.capacity, c.slots, s.actions);
  }

  /** What the events say. In every reachable state each packet was decided as the sequential limiter decides the clock
      samples in order, and its event tells that verdict, the size of its body and the rest. The pushed events are
      decided ones in order, each of an admitted packet telling of an admission of its own; their bytes add up to the
      body sizes of those packets and their latencies to 120 nanoseconds each. */
  lemma EventsTellOfPackets(c: Setting, run: seq<State>)
    requires Good(c) && IsRun(c, run)
    ensures var s := Last(run);
      && Runs(c, s) && DecidedOk(c.limits, s) && OriginsOk(s, RingOf(c, s).pushed)
      && LimitKept(c.limits, s.ledger, RingOf(c, s).pushed)
      && ByteSum(RingOf(c, s).pushed) == SizesAt(s.ledger.sizes, s.ledger.passes)
      && LatencySum(RingOf(c, s).pushed) == 120 * |s.ledger.passes|
  {
    InvOnRuns(c, run);
  }

  /** A drained monitor publishes exactly when 100 milliseconds have passed, and then covers every event popped. */
  lemma LookPublishes(c: Setting, s: State, elapsedMs: nat, s': State)
    requires Runs(c, s) && Step(c, s, Look(elapsedMs), s')
    ensures elapsedMs < 100 ==> s'.reports == s.reports && s'.stats == s.stats && s'.covered == s.covered
    ensures elapsedMs >= 100 ==>
      && |s'.reports| == |s.reports| + 1 && Last(s'.reports).count == s'.covered == |RingOf(c, s).popped|
      && Last(s'.reports).since == s.covered && Last(s'.reports).stats == s'.stats
  {
  }
}
