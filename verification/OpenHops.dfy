/** Whether a routing table can name a next hop whose breaker was read as Open in the run that computed it. */
module OpenHops {
  import opened Bits
  import opened Paths
  import opened ShortestRoutes
  import opened Effective
  import opened CostBounds
  import opened RouteTables
  import opened CircuitBreakers
  import opened LinkBreakers
  import opened Forwarding

  /** The far ends of the source's links, in order. */
  function Neighbours(links: seq<Edge>): (ns: seq<NodeId>)
    ensures |ns| == |links| && forall i :: 0 <= i < |links| ==> ns[i] == links[i].0
  {
    seq(|links|, i requires 0 <= i < |links| => links[i].0)
  }

  /** `table` is what some run can compute that starts with these breakers, polls the links to these neighbours at these
      clock readings, and whose other links and costs are those of the closed graph `g`. */
  ghost predicate RunTable(breakers: LinkStates, src: NodeId, ns: seq<NodeId>, clock: seq<Reading>,
                           g: Graph, ips: map<NodeId, nat>, masks: map<NodeId, nat>, table: seq<RoutingTableEntry>)
    requires |clock| == |ns|
  {
    && src in g && SelfContained(g) && Neighbours(g[src]) == ns
    && var eff := EffectiveGraph(g, src, OpenLinks(breakers, g[src], clock));
      LinksFit(eff, src) && exists hops, dests :: TableFor(eff, src, ips, masks, hops, dests, table)
  }

  /** No next hop of the table was read as Open at any of its links. */
  ghost predicate AvoidsOpen(breakers: LinkStates, ns: seq<NodeId>, clock: seq<Reading>, table: seq<RoutingTableEntry>)
    requires |clock| == |ns|
  {
    forall k, i :: 0 <= k < |table| && 0 <= i < |ns| && ns[i] == table[k].nextHopId ==>
      !IsOpen(breakers, ns[i], clock[i])
  }

  /** Links i and j lead to the same neighbour, whose breaker is Open with a timeout that elapses between the two
      readings. */
  ghost predicate Flips(breakers: LinkStates, ns: seq<NodeId>, clock: seq<Reading>, i: nat, j: nat)
    requires |clock| == |ns|
  {
    && i < j < |ns| && ns[i] == ns[j] && ns[i] in breakers
    && var s := breakers[ns[i]];
      && s.breaker.state == Open && s.breaker.since <= clock[i].check && s.breaker.since <= clock[j].check
      && !TimeoutElapsed(s.config, s.breaker, clock[i]) && TimeoutElapsed(s.config, s.breaker, clock[j])
  }

  /** No breaker of another node leaves the Open state between two of its links. */
  ghost predicate NeverFlips(breakers: LinkStates, src: NodeId, ns: seq<NodeId>, clock: seq<Reading>)
    requires |clock| == |ns|
  {
    forall i: nat, j: nat :: i < j < |ns| && ns[i] != src ==> !Flips(breakers, ns, clock, i, j)
  }

  /** Of two links to one neighbour, the earlier read as Open and the later not, the breaker flips; the other way round
      cannot be. */
  lemma MixedReadingsFlip(breakers: LinkStates, ns: seq<NodeId>, clock: seq<Reading>, i: nat, j: nat)
    requires |clock| == |ns| && MonotoneClock(clock) && ClockStarts(breakers, clock)
    requires i < |ns| && j < |ns| && ns[i] == ns[j]
    requires IsOpen(breakers, ns[i], clock[i]) && !IsOpen(breakers, ns[j], clock[j])
    ensures i < j && Flips(breakers, ns, clock, i, j)
  {
    assert clock[0].check <= clock[i].check && clock[0].check <= clock[j].check;
  }

  /** Without a flip no table names a next hop that was read as Open. */
  lemma AvoidsWithoutFlip(breakers: LinkStates, src: NodeId, ns: seq<NodeId>, clock: seq<Reading>,
                          g: Graph, ips: map<NodeId, nat>, masks: map<NodeId, nat>, table: seq<RoutingTableEntry>)
    requires |clock| == |ns| && MonotoneClock(clock) && ClockStarts(breakers, clock)
    requires NeverFlips(breakers, src, ns, clock) && RunTable(breakers, src, ns, clock, g, ips, masks, table)
    ensures AvoidsOpen(breakers, ns, clock, table)
  {
    var open := OpenLinks(breakers, g[src], clock);
    var eff: Graph := EffectiveGraph(g, src, open);
    var hops, dests :| TableFor(eff, src, ips, masks, hops, dests, table);
    ClosedStaysClosed(g, src, open);
    hide EffectiveGraph, TableFor, SelfContained, Shortest, Flips, IsOpen, LinksFit, MonotoneClock, ClockStarts;
    assert eff.Keys == g.Keys by { SameNodes(g, src, open); }
    forall k, i | 0 <= k < |table| && 0 <= i < |ns| && ns[i] == table[k].nextHopId
      ensures !IsOpen(breakers, ns[i], clock[i])
    {
      EntryIsShortest(eff, src, ips, masks, hops, dests, table, k);
      NoRouteOverOpenLink(g, src, open, dests[k], table[k].nextHopId, table[k].metric);
      var j :| 0 <= j < |g[src]| && g[src][j].0 == table[k].nextHopId && !open[j];
      assert !IsOpen(breakers, ns[j], clock[j]);
      if IsOpen(breakers, ns[i], clock[i]) {
        MixedReadingsFlip(breakers, ns, clock, i, j);
      }
    }
  }

  lemma SameNodes(g: Graph, src: NodeId, open: seq<bool>)
    requires Readings(g, src, open)
    ensures EffectiveGraph(g, src, open).Keys == g.Keys
  {
  }

  // ----- the graph on which a flip shows

  /** Every link costs the failure cost, except those to `hop`, which cost 1. */
  function StarLinks(ns: seq<NodeId>, hop: NodeId): (links: seq<Edge>)
    ensures |links| == |ns|
    ensures forall k :: 0 <= k < |ns| ==> links[k] == (ns[k], if ns[k] == hop then 1 else FAILED_COST)
  {
    seq(|ns|, k requires 0 <= k < |ns| => (ns[k], if ns[k] == hop then 1 else FAILED_COST))
  }

  /** A source with these neighbours, which have no links of their own. */
  function Star(src: NodeId, ns: seq<NodeId>, hop: NodeId): Graph {
    map v | v in [src] + ns :: if v == src then StarLinks(ns, hop) else []
  }

  /** Only `hop` can be reached below the failure cost, over a link of cost 1. */
  ghost predicate IsStar(g: Graph, src: NodeId, hop: NodeId) {
    && src in g && hop in g && hop != src && (hop, 1) in g[src]
    && (forall e: Edge :: e in g[src] ==> e.1 >= (if e.0 == hop then 1 else FAILED_COST))
    && (forall v :: v in g && v != src ==> g[v] == [])
  }

  lemma {:induction false} StarWalk(g: Graph, src: NodeId, hop: NodeId, p: seq<Edge>, v: NodeId)
    requires IsStar(g, src, hop) && IsWalk(g, src, p, v) && v != src
    ensures Weight(p) >= if v == hop then 1 else FAILED_COST
    decreases p
  {
    var e := p[0];
    if e.0 == src {
      StarWalk(g, src, hop, p[1..], v);
    } else {
      assert p[1..] == [];
      assert e.0 == v;
    }
  }

  lemma StarDistances(g: Graph, src: NodeId, hop: NodeId)
    requires IsStar(g, src, hop)
    ensures Shortest(g, src, hop, 1) && StartsShortest(g, src, hop, hop, 1)
    ensures forall v :: v in g && v != src && Within(g, src, v) ==> v == hop
  {
    var e: Edge := (hop, 1);
    var none: seq<Edge> := [];
    assert IsWalk(g, hop, none, hop) && Weight(none) == 0;
    WalkCons(g, src, e, none, hop);
    assert IsWalk(g, src, [e] + none, hop) && Weight([e] + none) == 1;
    forall p, v | IsWalk(g, src, p, v) && v != src
      ensures Weight(p) >= if v == hop then 1 else FAILED_COST
    {
      StarWalk(g, src, hop, p, v);
    }
    assert Shortest(g, hop, hop, 0);
  }

  /** The table of a star in which only the address of `hop` is known. */
  lemma StarTable(g: Graph, src: NodeId, hop: NodeId) returns (ips: map<NodeId, nat>, table: seq<RoutingTableEntry>)
    requires IsStar(g, src, hop) && SelfContained(g)
    ensures TableFor(g, src, ips, ips, map[hop := hop], [hop], table)
    ensures |table| == 1 && table[0].nextHopId == hop
  {
    ips := map[hop := 0];
    table := [RoutingTableEntry(BitAnd(0, 0), 0, hop, "eth0", 1)];
    StarDistances(g, src, hop);
    hide Shortest, StartsShortest, IsStar, SelfContained;
    forall dest | InReach(g, src, dest)
      ensures dest == hop
    {
      assert src in g by { assert InReach(g, src, dest); }
      NothingDangles(g, src, dest);
    }
    assert Within(g, src, hop);
    StarHas(g, src, hop);
    assert CorrectRoute(g, src, hop, hop, 1);
    assert EntryFor(g, src, ips, ips, hop, table[0]);
    assert PartialTable(g, src, ips, ips, {hop}, map[hop := hop], [hop], table);
    assert HoldsReach(g, src, {hop});
  }

  lemma StarHas(g: Graph, src: NodeId, hop: NodeId)
    requires IsStar(g, src, hop)
    ensures src in g && hop in g && hop != src
  {
  }

  lemma StarIsClosed(src: NodeId, ns: seq<NodeId>, hop: NodeId)
    ensures SelfContained(Star(src, ns, hop)) && src in Star(src, ns, hop) &&
      Star(src, ns, hop)[src] == StarLinks(ns, hop)
    ensures Neighbours(Star(src, ns, hop)[src]) == ns
    ensures hop in ns ==> hop in Star(src, ns, hop)
    ensures forall v :: v in Star(src, ns, hop) && v != src ==> Star(src, ns, hop)[v] == []
  {
    assert forall i :: 0 <= i < |ns| ==> ns[i] in Star(src, ns, hop);
  }

  /** When link `j` is not read as Open, a star stays one in the run. */
  lemma StarStaysStar(g: Graph, src: NodeId, ns: seq<NodeId>, open: seq<bool>, j: nat)
    requires |open| == |ns| && j < |ns| && ns[j] != src && !open[j]
    requires src in g && g[src] == StarLinks(ns, ns[j]) && ns[j] in g && forall v :: v in g && v != src ==> g[v] == []
    ensures var eff := EffectiveGraph(g, src, open); IsStar(eff, src, ns[j]) && LinksFit(eff, src)
  {
    var eff := EffectiveGraph(g, src, open);
    assert eff[src][j] == (ns[j], 1);
    forall e: Edge | e in eff[src]
      ensures e.1 <= FAILED_COST && e.1 >= (if e.0 == ns[j] then 1 else FAILED_COST)
    {
      var i :| 0 <= i < |eff[src]| && eff[src][i] == e;
    }
    assert IsStar(eff, src, ns[j]);
    assert IsWalk(eff, src, [], src) && Weight([]) == 0;
  }

  lemma RunTableHolds(breakers: LinkStates, src: NodeId, ns: seq<NodeId>, clock: seq<Reading>, g: Graph,
                      open: seq<bool>,
                      ips: map<NodeId, nat>, hops: map<NodeId, NodeId>, dests: seq<NodeId>,
                        table: seq<RoutingTableEntry>)
    requires |clock| == |ns| && src in g && SelfContained(g) && Neighbours(g[src]) == ns
    requires open == OpenLinks(breakers, g[src], clock) && LinksFit(EffectiveGraph(g, src, open), src)
    requires TableFor(EffectiveGraph(g, src, open), src, ips, ips, hops, dests, table)
    ensures RunTable(breakers, src, ns, clock, g, ips, ips, table)
  {
    hide EffectiveGraph, TableFor, LinksFit, SelfContained, OpenLinks;
    assert TableFor(EffectiveGraph(g, src, open), src, ips, ips, hops, dests, table);
  }

  lemma FlipReadings(breakers: LinkStates, ns: seq<NodeId>, clock: seq<Reading>, i: nat, j: nat)
    requires |clock| == |ns| && Flips(breakers, ns, clock, i, j)
    ensures i < j < |ns| && ns[i] == ns[j] && IsOpen(breakers, ns[i], clock[i]) && !IsOpen(breakers, ns[j], clock[j])
  {
  }

  /** A flip shows: on the star some run computes a table that names a next hop read as Open. */
  lemma FlipNamesOpenHop(breakers: LinkStates, src: NodeId, ns: seq<NodeId>, clock: seq<Reading>, i: nat, j: nat)
    returns (g: Graph, ips: map<NodeId, nat>, table: seq<RoutingTableEntry>)
    requires |clock| == |ns| && Flips(breakers, ns, clock, i, j) && ns[i] != src
    ensures RunTable(breakers, src, ns, clock, g, ips, ips, table)
    ensures |table| == 1 && table[0].nextHopId == ns[i] && IsOpen(breakers, ns[i], clock[i])
  {
    FlipReadings(breakers, ns, clock, i, j);
    hide Flips, IsOpen, RunTable;
    g := Star(src, ns, ns[j]);
    StarIsClosed(src, ns, ns[j]);
    hide Star, StarLinks, EffectiveGraph, IsStar, TableFor, LinksFit, SelfContained;
    var open := OpenLinks(breakers, g[src], clock);
    StarStaysStar(g, src, ns, open, j);
    ClosedStaysClosed(g, src, open);
    var eff := EffectiveGraph(g, src, open);
    ips, table := StarTable(eff, src, ns[j]);
    RunTableHolds(breakers, src, ns, clock, g, open, ips, map[ns[j] := ns[j]], [ns[j]], table);
  }

  /** The exact condition. Given the source's neighbours, its breakers and the clock readings, no run over whatever
      graph, costs and addresses computes a table that names a next hop read as Open,
        if and only if no breaker of another
      node leaves the Open state between the readings of two links to that node. */
  lemma OpenHopIffFlip(breakers: LinkStates, src: NodeId, ns: seq<NodeId>, clock: seq<Reading>)
    requires |clock| == |ns| && MonotoneClock(clock) && ClockStarts(breakers, clock)
    ensures (forall g, ips, masks, table :: RunTable(breakers, src, ns, clock, g, ips, masks, table) ==>
        AvoidsOpen(breakers, ns, clock, table))
      <==> NeverFlips(breakers, src, ns, clock)
  {
    hide RunTable, AvoidsOpen, MonotoneClock, ClockStarts;
    if NeverFlips(breakers, src, ns, clock) {
      forall g, ips, masks, table | RunTable(breakers, src, ns, clock, g, ips, masks, table)
        ensures AvoidsOpen(breakers, ns, clock, table)
      {
        AvoidsWithoutFlip(breakers, src, ns, clock, g, ips, masks, table);
      }
    } else {
      var i: nat, j: nat :| i < j < |ns| && ns[i] != src && Flips(breakers, ns, clock, i, j);
      var g, ips, table := FlipNamesOpenHop(breakers, src, ns, clock, i, j);
      NamesOpen(breakers, ns, clock, table, i);
    }
  }

  lemma NamesOpen(breakers: LinkStates, ns: seq<NodeId>, clock: seq<Reading>, table: seq<RoutingTableEntry>, i: nat)
    requires |clock| == |ns| && i < |ns| && IsOpen(breakers, ns[i], clock[i]) && table != [] &&
      table[0].nextHopId == ns[i]
    ensures !AvoidsOpen(breakers, ns, clock, table)
  {
  }

  /** With at most one link to each neighbour no table names a next hop whose breaker was read as Open. */
  lemma OneLinkEachAvoidsOpen(breakers: LinkStates, src: NodeId, ns: seq<NodeId>, clock: seq<Reading>,
                              g: Graph, ips: map<NodeId, nat>, masks: map<NodeId, nat>, table: seq<RoutingTableEntry>)
    requires |clock| == |ns| && MonotoneClock(clock) && ClockStarts(breakers, clock)
    requires forall i, j :: 0 <= i < j < |ns| ==> ns[i] != ns[j]
    requires RunTable(breakers, src, ns, clock, g, ips, masks, table)
    ensures AvoidsOpen(breakers, ns, clock, table)
  {
    AvoidsWithoutFlip(breakers, src, ns, clock, g, ips, masks, table);
  }

  lemma RecoveryFlips(breakers: LinkStates, ns: seq<NodeId>, clock: seq<Reading>)
    requires breakers == map[1 := LinkState(Config(3, 5000), Breaker(Open, 0, 0, 0))] && ns == [1, 1]
    requires clock == [Reading(0, 0), Reading(5_000_000_000, 5_000_000_000)]
    ensures MonotoneClock(clock) && ClockStarts(breakers, clock) && Flips(breakers, ns, clock, 0, 1)
  {
  }

  /** Two links to node 1, whose breaker has been Open since 0 and recovers after 5 seconds; the first is read at 0, the
      second 5 seconds later. A table of this run sends packets to node 1, which was read as Open. */
  lemma ParallelLinksMeetRecovery(breakers: LinkStates, ns: seq<NodeId>, clock: seq<Reading>)
    requires breakers == map[1 := LinkState(Config(3, 5000), Breaker(Open, 0, 0, 0))] && ns == [1, 1]
    requires clock == [Reading(0, 0), Reading(5_000_000_000, 5_000_000_000)]
    ensures MonotoneClock(clock) && ClockStarts(breakers, clock) && IsOpen(breakers, 1, clock[0])
    ensures exists g, ips, table ::
      RunTable(breakers, 0, ns, clock, g, ips, ips, table) && !AvoidsOpen(breakers, ns, clock, table)
  {
    RecoveryFlips(breakers, ns, clock);
    hide RunTable, Flips, IsOpen;
    var g, ips, table := FlipNamesOpenHop(breakers, 0, ns, clock, 0, 1);
    NamesOpen(breakers, ns, clock, table, 0);
  }
}
