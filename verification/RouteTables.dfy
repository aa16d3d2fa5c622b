/** What a routing table says of a graph, and how one is built destination by destination. */
module RouteTables {
  import opened Bits
  import opened Paths
  import opened Search
  import opened ShortestRoutes
  import opened Effective

  /** Addresses and masks are 32-bit unsigned values. */
  datatype RoutingTableEntry = RoutingTableEntry(
    destinationSubnet: nat, mask: nat, nextHopId: NodeId, interfaceName: string, metric: nat)

  /** A walk cheaper than the failure cost leads from `src` to `dest`. */
  ghost predicate Within(g: Graph, src: NodeId, dest: NodeId) {
    exists d: nat :: d < FAILED_COST && Shortest(g, src, dest, d)
  }

  /** `dest` is a node within reach below the failure cost, or a dangling neighbour. */
  ghost predicate InReach(g: Graph, src: NodeId, dest: NodeId) {
    && dest != src && src in g
    && if dest in g then Within(g, src, dest) else Dangling(g, src, dest)
  }

  /** `hop` and `d` are a correct next hop and metric for `dest`. A dangling neighbour is its own next hop at
      metric 0. */
  ghost predicate CorrectRoute(g: Graph, src: NodeId, dest: NodeId, hop: NodeId, d: nat) {
    if dest in g then Shortest(g, src, dest, d) && d < FAILED_COST && StartsShortest(g, src, dest, hop, d)
    else hop == dest && d == 0
  }

  ghost predicate Known(ips: map<NodeId, nat>, masks: map<NodeId, nat>, dest: NodeId, hop: NodeId) {
    dest in ips && dest in masks && hop in ips
  }

  ghost predicate EntryFor(g: Graph, src: NodeId, ips: map<NodeId, nat>, masks: map<NodeId, nat>, dest: NodeId,
                           e: RoutingTableEntry) {
    && InReach(g, src, dest) && Known(ips, masks, dest, e.nextHopId)
    && CorrectRoute(g, src, dest, e.nextHopId, e.metric)
    && e.destinationSubnet == BitAnd(ips[dest], masks[dest]) && e.mask == masks[dest] && e.interfaceName == "eth0"
  }

  /** `table` is a routing table of `src` on the graph `g`: entry i is for `dests[i]`, each destination in reach has
      at most one, and it has one exactly when its addresses and those of the next hop chosen for it are known. */
  ghost predicate TableFor(g: Graph, src: NodeId, ips: map<NodeId, nat>, masks: map<NodeId, nat>,
                           hops: map<NodeId, NodeId>, dests: seq<NodeId>, table: seq<RoutingTableEntry>)
  {
    exists all :: PartialTable(g, src, ips, masks, all, hops, dests, table) && HoldsReach(g, src, all)
  }

  ghost predicate HoldsReach(g: Graph, src: NodeId, nodes: set<NodeId>) {
    forall dest :: InReach(g, src, dest) ==> dest in nodes
  }

  /** A routing table for the nodes of `done` only. */
  ghost predicate PartialTable(g: Graph, src: NodeId, ips: map<NodeId, nat>, masks: map<NodeId, nat>, done: set<NodeId>,
                               hops: map<NodeId, NodeId>, dests: seq<NodeId>, table: seq<RoutingTableEntry>)
  {
    && (forall dest :: dest in hops <==> dest in done && InReach(g, src, dest))
    && (forall dest :: dest in hops ==> exists d :: CorrectRoute(g, src, dest, hops[dest], d))
    && |dests| == |table|
    && (forall i, j :: 0 <= i < j < |dests| ==> dests[i] != dests[j])
    && (forall i :: 0 <= i < |dests| ==>
          dests[i] in hops && table[i].nextHopId == hops[dests[i]] && EntryFor(g, src, ips, masks, dests[i], table[i]))
    && (forall dest :: dest in hops && Known(ips, masks, dest, hops[dest]) ==> dest in dests)
  }

  lemma SkipDest(g: Graph, src: NodeId, ips: map<NodeId, nat>, masks: map<NodeId, nat>, done: set<NodeId>,
                 hops: map<NodeId, NodeId>, dests: seq<NodeId>, table: seq<RoutingTableEntry>, dest: NodeId)
    requires PartialTable(g, src, ips, masks, done, hops, dests, table) && !InReach(g, src, dest)
    ensures PartialTable(g, src, ips, masks, done + {dest}, hops, dests, table)
  {
    hide InReach, EntryFor, CorrectRoute;
  }

  lemma AddHop(g: Graph, src: NodeId, ips: map<NodeId, nat>, masks: map<NodeId, nat>, done: set<NodeId>,
               hops: map<NodeId, NodeId>, dests: seq<NodeId>, table: seq<RoutingTableEntry>, dest: NodeId,
                 hop: NodeId, d: nat)
    requires PartialTable(g, src, ips, masks, done, hops, dests, table) && dest !in done
    requires InReach(g, src, dest) && CorrectRoute(g, src, dest, hop, d) && !Known(ips, masks, dest, hop)
    ensures PartialTable(g, src, ips, masks, done + {dest}, hops[dest := hop], dests, table)
  {
    hide InReach, EntryFor, CorrectRoute;
  }

  lemma AddEntry(g: Graph, src: NodeId, ips: map<NodeId, nat>, masks: map<NodeId, nat>, done: set<NodeId>,
                 hops: map<NodeId, NodeId>, dests: seq<NodeId>, table: seq<RoutingTableEntry>, dest: NodeId,
                   e: RoutingTableEntry)
    requires PartialTable(g, src, ips, masks, done, hops, dests, table) && dest !in done
    requires EntryFor(g, src, ips, masks, dest, e)
    ensures PartialTable(g, src, ips, masks, done + {dest}, hops[dest := e.nextHopId], dests + [dest], table + [e])
  {
    assert CorrectRoute(g, src, dest, e.nextHopId, e.metric) && InReach(g, src, dest);
    hide InReach, EntryFor, CorrectRoute;
    var dests', table' := dests + [dest], table + [e];
    assert dest !in dests;
    assert dests <= dests' && dest in dests';
  }

  lemma NoneDone(g: Graph, src: NodeId, ips: map<NodeId, nat>, masks: map<NodeId, nat>)
    ensures PartialTable(g, src, ips, masks, {}, map[], [], [])
  {
  }

  lemma RouteIsCorrect(g: Graph, src: NodeId, dest: NodeId, hop: NodeId, d: nat)
    requires dest in g ==> Shortest(g, src, dest, d) && d < FAILED_COST && StartsShortest(g, src, dest, hop, d)
    requires dest !in g ==> hop == dest && d == 0
    ensures CorrectRoute(g, src, dest, hop, d)
  {
  }

  lemma EntryIsRight(g: Graph, src: NodeId, ips: map<NodeId, nat>, masks: map<NodeId, nat>, dest: NodeId,
                     e: RoutingTableEntry)
    requires InReach(g, src, dest) && Known(ips, masks, dest, e.nextHopId)
    requires CorrectRoute(g, src, dest, e.nextHopId, e.metric)
    requires e.destinationSubnet == BitAnd(ips[dest], masks[dest]) && e.mask == masks[dest] && e.interfaceName == "eth0"
    ensures EntryFor(g, src, ips, masks, dest, e)
  {
  }

  /** A solved search tells which labels are routes. */
  lemma LabelIsRoute(g: Graph, src: NodeId, dist: Labels, parent: Parents, order: seq<NodeId>, dest: NodeId)
    requires Solved(g, src, dist, parent, order)
    ensures InReach(g, src, dest) <==> dest in dist && dest != src && dist[dest] < FAILED_COST
    ensures InReach(g, src, dest) && dest in g ==> Shortest(g, src, dest, dist[dest])
    ensures InReach(g, src, dest) && dest !in g ==> dist[dest] == 0
  {
    if dest in g {
      LabelsAreShortest(g, src, dist, parent, order, dest);
    } else {
      LabelledOutside(g, src, dist, parent, order, dest);
    }
  }
}
