/** Forwarding across routers that have all run route computation on the same graph. */
module Forwarding {
  import opened Bits
  import opened Paths
  import opened ShortestRoutes
  import opened Effective
  import opened RouteTables
  import opened Lookup
  import opened HopByHop

  lemma {:induction false} ClosedWalkStays(g: Graph, a: NodeId, p: seq<Edge>, b: NodeId)
    requires SelfContained(g) && a in g && IsWalk(g, a, p, b)
    ensures b in g
    decreases p
  {
    if p != [] {
      var i :| 0 <= i < |g[a]| && g[a][i] == p[0];
      ClosedWalkStays(g, p[0].0, p[1..], b);
    }
  }

  lemma NothingDangles(g: Graph, src: NodeId, v: NodeId)
    requires SelfContained(g) && src in g
    ensures !Dangling(g, src, v)
  {
    forall p | IsWalk(g, src, p, v)
      ensures v in g
    {
      ClosedWalkStays(g, src, p, v);
    }
  }

  /** Every node of the graph has an address and a mask. */
  ghost predicate AllKnown(g: Graph, ips: map<NodeId, nat>, masks: map<NodeId, nat>) {
    g.Keys <= ips.Keys && g.Keys <= masks.Keys
  }

  /** On a closed graph whose addresses are all known a table holds exactly the destinations within reach. */
  lemma TableHoldsReachable(g: Graph, src: NodeId, ips: map<NodeId, nat>, masks: map<NodeId, nat>,
                            hops: map<NodeId, NodeId>, dests: seq<NodeId>, table: seq<RoutingTableEntry>, dest: NodeId)
    requires SelfContained(g) && src in g && AllKnown(g, ips, masks) && TableFor(g, src, ips, masks, hops, dests, table)
    ensures dest in dests <==> InReach(g, src, dest)
    ensures dest in dests ==> dest in g
  {
    NothingDangles(g, src, dest);
    var all :| PartialTable(g, src, ips, masks, all, hops, dests, table) && HoldsReach(g, src, all);
    if InReach(g, src, dest) {
      assert dest in hops;
      var d :| CorrectRoute(g, src, dest, hops[dest], d);
      var e :| e in g[src] && e.0 == hops[dest];
      assert Known(ips, masks, dest, hops[dest]);
    }
  }

  /** Entry i of a table on a closed graph. */
  lemma EntryIsShortest(g: Graph, src: NodeId, ips: map<NodeId, nat>, masks: map<NodeId, nat>,
                        hops: map<NodeId, NodeId>, dests: seq<NodeId>, table: seq<RoutingTableEntry>, i: int)
    requires SelfContained(g) && src in g && TableFor(g, src, ips, masks, hops, dests, table) && 0 <= i < |table|
    ensures |dests| == |table| && dests[i] in g && dests[i] != src && dests[i] in ips && dests[i] in masks
    ensures table[i].mask == masks[dests[i]] && table[i].destinationSubnet == BitAnd(ips[dests[i]], masks[dests[i]])
    ensures Shortest(g, src, dests[i], table[i].metric) && table[i].metric < 999_999 && table[i].interfaceName == "eth0"
    ensures StartsShortest(g, src, dests[i], table[i].nextHopId, table[i].metric)
    ensures dests[i] in hops && table[i].nextHopId == hops[dests[i]] && hops[dests[i]] in ips
  {
    var all :| PartialTable(g, src, ips, masks, all, hops, dests, table) && HoldsReach(g, src, all);
    assert EntryFor(g, src, ips, masks, dests[i], table[i]);
    NothingDangles(g, src, dests[i]);
  }

  /** Which destinations of a closed graph have an entry, whatever addresses are known: exactly those that a walk
      cheaper than 999999 reaches, whose address and mask are known, and the address of whose chosen next hop is known.
      The choice is made for every destination within reach, and starts a shortest walk. */
  lemma EntryIffKnown(g: Graph, src: NodeId, ips: map<NodeId, nat>, masks: map<NodeId, nat>,
                      hops: map<NodeId, NodeId>, dests: seq<NodeId>, table: seq<RoutingTableEntry>, dest: NodeId)
    requires SelfContained(g) && src in g && TableFor(g, src, ips, masks, hops, dests, table)
    ensures dest in hops <==> dest in g && dest != src && exists d: nat :: d < 999_999 && Shortest(g, src, dest, d)
    ensures dest in hops ==> exists d: nat :: Shortest(g, src, dest, d) && StartsShortest(g, src, dest, hops[dest], d)
    ensures dest in dests <==> dest in hops && dest in ips && dest in masks && hops[dest] in ips
  {
    NothingDangles(g, src, dest);
    var all :| PartialTable(g, src, ips, masks, all, hops, dests, table) && HoldsReach(g, src, all);
    hide Shortest, StartsShortest, SelfContained, Dangling;
    if dest in hops {
      var d :| CorrectRoute(g, src, dest, hops[dest], d);
    }
  }

  /** Failover. A destination has an entry exactly when some walk that avoids every source link read as Open costs
      less than the failure cost; the metric is the cheapest such cost, and the next hop is over a working link. */
  lemma Failover(g: Graph, src: NodeId, open: seq<bool>, ips: map<NodeId, nat>, masks: map<NodeId, nat>,
                 hops: map<NodeId, NodeId>, dests: seq<NodeId>, table: seq<RoutingTableEntry>)
    requires SelfContained(g) && src in g && Readings(g, src, open) && AllKnown(g, ips, masks)
    requires TableFor(EffectiveGraph(g, src, open), src, ips, masks, hops, dests, table)
    ensures |dests| == |table|
    ensures forall dest :: dest in dests <==> dest in g && dest != src && Within(WorkingGraph(g, src, open), src, dest)
    ensures forall i :: 0 <= i < |table| ==> Shortest(WorkingGraph(g, src, open), src, dests[i], table[i].metric)
    ensures forall i :: 0 <= i < |table| ==> HasWorkingLink(g, src, open, table[i].nextHopId)
  {
    var eff: Graph := EffectiveGraph(g, src, open);
    ClosedStaysClosed(g, src, open);
    assert eff.Keys == g.Keys;
    hide EffectiveGraph, WorkingGraph, TableFor, SelfContained, Shortest;
    forall dest
      ensures dest in dests <==> dest in g && dest != src && Within(WorkingGraph(g, src, open), src, dest)
    {
      TableHoldsReachable(eff, src, ips, masks, hops, dests, table, dest);
      SameWithin(g, src, open, dest);
    }
    TableLength(eff, src, ips, masks, hops, dests, table);
    forall i | 0 <= i < |table|
      ensures Shortest(WorkingGraph(g, src, open), src, dests[i], table[i].metric)
      ensures HasWorkingLink(g, src, open, table[i].nextHopId)
    {
      EntryIsShortest(eff, src, ips, masks, hops, dests, table, i);
      InflatingIsRemoving(g, src, open, src, dests[i], table[i].metric);
      NoRouteOverOpenLink(g, src, open, dests[i], table[i].nextHopId, table[i].metric);
    }
  }

  lemma SameWithin(g: Graph, src: NodeId, open: seq<bool>, dest: NodeId)
    requires Readings(g, src, open)
    ensures Within(EffectiveGraph(g, src, open), src, dest) <==> Within(WorkingGraph(g, src, open), src, dest)
  {
    hide EffectiveGraph, WorkingGraph, Shortest;
    forall d: nat | d < FAILED_COST
      ensures Shortest(EffectiveGraph(g, src, open), src, dest, d) <==>
        Shortest(WorkingGraph(g, src, open), src, dest, d)
    {
      InflatingIsRemoving(g, src, open, src, dest, d);
    }
  }

  lemma TableLength(g: Graph, src: NodeId, ips: map<NodeId, nat>, masks: map<NodeId, nat>,
                    hops: map<NodeId, NodeId>, dests: seq<NodeId>, table: seq<RoutingTableEntry>)
    requires TableFor(g, src, ips, masks, hops, dests, table)
    ensures |dests| == |table| && forall i, j :: 0 <= i < j < |dests| ==> dests[i] != dests[j]
  {
  }

  /** A neighbour that is not a node of the graph gets a route exactly when its addresses are known, and then at metric
      0. So a table names graph nodes only if and only if no such neighbour has known addresses. */
  lemma DanglingGetsRoute(g: Graph, src: NodeId, ips: map<NodeId, nat>, masks: map<NodeId, nat>,
                          hops: map<NodeId, NodeId>, dests: seq<NodeId>, table: seq<RoutingTableEntry>)
    requires src in g && TableFor(g, src, ips, masks, hops, dests, table)
    ensures |dests| == |table|
    ensures forall v :: v !in g ==> (v in dests <==> Dangling(g, src, v) && v in ips && v in masks)
    ensures (forall dest :: dest in dests ==> dest in g) <==> !exists v :: Dangling(g, src, v) && v in ips && v in masks
    ensures forall i :: 0 <= i < |dests| && dests[i] !in g ==> table[i].metric == 0 && table[i].nextHopId == dests[i]
  {
    var all :| PartialTable(g, src, ips, masks, all, hops, dests, table) && HoldsReach(g, src, all);
    hide Shortest, StartsShortest, Dangling;
    forall v | Dangling(g, src, v) && v in ips && v in masks
      ensures v in dests && v !in g
    {
      DanglingIsOutside(g, src, v);
      assert InReach(g, src, v);
      var d :| CorrectRoute(g, src, v, hops[v], d);
      assert Known(ips, masks, v, hops[v]);
    }
    forall i | 0 <= i < |dests|
      ensures EntryFor(g, src, ips, masks, dests[i], table[i])
    {
    }
  }

  /** One router whose only neighbour is not in the graph: the neighbour is routed to at metric 0, not 5. */
  lemma DanglingExample(g: Graph, ips: map<NodeId, nat>, masks: map<NodeId, nat>,
                        hops: map<NodeId, NodeId>, dests: seq<NodeId>, table: seq<RoutingTableEntry>)
    requires g == map[0 := [(1, 5)]] && 1 in ips && 1 in masks && TableFor(g, 0, ips, masks, hops, dests, table)
    ensures exists i :: 0 <= i < |table| && table[i].nextHopId == 1 && table[i].metric == 0
  {
    hide TableFor, Dangling;
    assert Dangling(g, 0, 1) by { OneLinkDangles(g); }
    DanglingGetsRoute(g, 0, ips, masks, hops, dests, table);
    var i :| 0 <= i < |dests| && dests[i] == 1;
  }

  lemma OneLinkDangles(g: Graph)
    requires g == map[0 := [(1, 5)]]
    ensures Dangling(g, 0, 1)
  {
    var e: Edge := (1, 5);
    var none: seq<Edge> := [];
    assert e in g[0] && IsWalk(g, 1, none, 1);
    WalkCons(g, 0, e, none, 1);
  }

  lemma DanglingIsOutside(g: Graph, src: NodeId, v: NodeId)
    requires src in g && Dangling(g, src, v)
    ensures v !in g && v != src
  {
  }

  ghost predicate NodeCovers(ips: map<NodeId, nat>, masks: map<NodeId, nat>, x: NodeId, address: nat)
    requires x in ips && x in masks
  {
    BitAnd(address, masks[x]) == BitAnd(ips[x], masks[x])
  }

  /** `owner` is the node whose prefix covers the address with the longest mask, longer than any other's. */
  ghost predicate Owner(g: Graph, ips: map<NodeId, nat>, masks: map<NodeId, nat>, address: nat, owner: NodeId)
    requires AllKnown(g, ips, masks)
  {
    && owner in g && NodeCovers(ips, masks, owner, address)
    && forall x :: x in g && x != owner && NodeCovers(ips, masks, x, address) ==>
      PopCount(masks[x]) < PopCount(masks[owner])
  }

  /** `table` is a table of `src` whose entries are for the destinations `dests`. */
  ghost predicate HasTable(g: Graph, src: NodeId, ips: map<NodeId, nat>, masks: map<NodeId, nat>,
                           dests: seq<NodeId>, table: seq<RoutingTableEntry>)
  {
    exists hops :: TableFor(g, src, ips, masks, hops, dests, table)
  }

  /** A run that reads no breaker as Open computes a table on the topology itself. */
  lemma ComputedWithNothingOpen(g: Graph, src: NodeId, open: seq<bool>, ips: map<NodeId, nat>, masks: map<NodeId, nat>,
                                hops: map<NodeId, NodeId>, dests: seq<NodeId>, table: seq<RoutingTableEntry>)
    requires Readings(g, src, open) && TableFor(EffectiveGraph(g, src, open), src, ips, masks, hops, dests, table)
    requires forall i :: 0 <= i < |open| ==> !open[i]
    ensures HasTable(g, src, ips, masks, dests, table)
  {
    NothingOpen(g, src, open);
    hide EffectiveGraph, TableFor;
    assert TableFor(g, src, ips, masks, hops, dests, table);
  }

  type Tables = map<NodeId, seq<RoutingTableEntry>>

  /** Every node of a closed graph with positive costs holds a table computed on that graph, no breaker being Open. The
      entries of router `r` are for the destinations `dests[r]`. */
  ghost predicate Converged(g: Graph, ips: map<NodeId, nat>, masks: map<NodeId, nat>, dests: map<NodeId, seq<NodeId>>,
                            tables: Tables) {
    && SelfContained(g) && AllKnown(g, ips, masks) && tables.Keys == g.Keys && dests.Keys == g.Keys
    && (forall u, e: Edge :: u in g && e in g[u] ==> e.1 > 0)
    && (forall r :: r in g ==> HasTable(g, r, ips, masks, dests[r], tables[r]))
  }

  /** An entry covers an address exactly when the prefix of its destination does. */
  lemma EntryCovers(ips: map<NodeId, nat>, masks: map<NodeId, nat>, x: NodeId, e: RoutingTableEntry, address: nat)
    requires x in ips && x in masks && e.mask == masks[x] && e.destinationSubnet == BitAnd(ips[x], masks[x])
    ensures Covers(e, address) <==> NodeCovers(ips, masks, x, address)
  {
    AndAgain(ips[x], masks[x]);
  }

  /** A router other than the owner that reaches the owner below the failure cost has an entry covering the address. */
  lemma OwnerHasEntry(g: Graph, ips: map<NodeId, nat>, masks: map<NodeId, nat>, hops: map<NodeId, NodeId>,
                      dests: seq<NodeId>,
                      table: seq<RoutingTableEntry>, address: nat, owner: NodeId, r: NodeId) returns (i: nat)
    requires SelfContained(g) && AllKnown(g, ips, masks) && Owner(g, ips, masks, address, owner)
    requires r in g && r != owner && Within(g, r, owner) && TableFor(g, r, ips, masks, hops, dests, table)
    ensures |dests| == |table| && i < |table| && dests[i] == owner && Covers(table[i], address) &&
      table[i].mask == masks[owner]
  {
    TableHoldsReachable(g, r, ips, masks, hops, dests, table, owner);
    TableLength(g, r, ips, masks, hops, dests, table);
    hide TableFor, Within;
    i :| i < |dests| && dests[i] == owner;
    EntryIsShortest(g, r, ips, masks, hops, dests, table, i);
    EntryCovers(ips, masks, owner, table[i], address);
  }

  /** The longest match at such a router is the owner's entry. */
  lemma LongestIsOwners(g: Graph, ips: map<NodeId, nat>, masks: map<NodeId, nat>, hops: map<NodeId, NodeId>,
                        dests: seq<NodeId>,
                        table: seq<RoutingTableEntry>, address: nat, owner: NodeId, r: NodeId, k: nat)
    requires SelfContained(g) && AllKnown(g, ips, masks) && Owner(g, ips, masks, address, owner)
    requires r in g && r != owner && Within(g, r, owner) && TableFor(g, r, ips, masks, hops, dests, table)
    requires k < |table| && LongestMatch(table, address, table[k])
    ensures |dests| == |table| && dests[k] == owner
  {
    var i := OwnerHasEntry(g, ips, masks, hops, dests, table, address, owner, r);
    assert table[i] in table;
    EntryIsShortest(g, r, ips, masks, hops, dests, table, k);
    hide TableFor, Within, SelfContained, PopCount, Covers, NodeCovers, Shortest, StartsShortest;
    EntryCovers(ips, masks, dests[k], table[k], address);
  }

  /** The lookup at a router other than the owner finds a next hop that starts a shortest walk to the owner. */
  lemma LookupLeadsToOwner(g: Graph, ips: map<NodeId, nat>, masks: map<NodeId, nat>, dests: map<NodeId, seq<NodeId>>,
                           tables: Tables,
                           address: nat, owner: NodeId, r: NodeId, m: nat, found: bool, hop: NodeId)
    requires Converged(g, ips, masks, dests, tables) && Owner(g, ips, masks, address, owner)
    requires r in g && r != owner && Shortest(g, r, owner, m) && m < FAILED_COST
    requires Answers(tables[r], address, found, hop)
    ensures found && StartsShortest(g, r, owner, hop, m)
  {
    hide TableFor, Shortest, StartsShortest, PopCount, Covers, NodeCovers, Owner, LongestMatch;
    var table := tables[r];
    assert HasTable(g, r, ips, masks, dests[r], table);
    var hops :| TableFor(g, r, ips, masks, hops, dests[r], table);
    assert Within(g, r, owner);
    var i := OwnerHasEntry(g, ips, masks, hops, dests[r], table, address, owner, r);
    assert table[i] in table;
    var e :| LongestMatch(table, address, e) && e.nextHopId == hop;
    MatchIsEntry(table, address, e);
    var k: nat :| k < |table| && table[k] == e;
    LongestIsOwners(g, ips, masks, hops, dests[r], table, address, owner, r, k);
    EntryIsShortest(g, r, ips, masks, hops, dests[r], table, k);
    ShortestUnique(g, r, owner, m, e.metric);
  }

  lemma MatchIsEntry(table: seq<RoutingTableEntry>, address: nat, e: RoutingTableEntry)
    requires LongestMatch(table, address, e)
    ensures exists k: nat :: k < |table| && table[k] == e
  {
  }

  /** Some answer to a lookup exists. */
  lemma AnswerExists(table: seq<RoutingTableEntry>, address: nat) returns (found: bool, hop: NodeId)
    ensures Answers(table, address, found, hop)
  {
    hide Covers, PopCount;
    found, hop := false, 0;
    if table != [] {
      var front, last := table[..|table| - 1], table[|table| - 1];
      assert table == front + [last];
      found, hop := AnswerExists(front, address);
      if found {
        var e :| LongestMatch(front, address, e) && e.nextHopId == hop;
        if Covers(last, address) && PopCount(last.mask) > PopCount(e.mask) {
          assert LongestMatch(table, address, last);
          hop := last.nextHopId;
        } else {
          assert LongestMatch(table, address, e);
        }
      } else if Covers(last, address) {
        assert LongestMatch(table, address, last);
        found, hop := true, last.nextHopId;
      }
    }
  }

  /** The hand-overs of routers that look a destination address up. */
  ghost function LookupHandOvers(tables: Tables, address: nat): HandOvers {
    iset x: (NodeId, NodeId) | x.0 in tables && Answers(tables[x.0], address, true, x.1)
  }

  /** An entry for the destination names this next hop. */
  ghost predicate NamesHop(dests: seq<NodeId>, table: seq<RoutingTableEntry>, dest: NodeId, hop: NodeId) {
    exists i :: 0 <= i < |dests| && i < |table| && dests[i] == dest && table[i].nextHopId == hop
  }

  /** The hand-overs of routers that use their entry for a destination node. */
  ghost function EntryHandOvers(dests: map<NodeId, seq<NodeId>>, tables: Tables, dest: NodeId): HandOvers {
    iset x: (NodeId, NodeId) | x.0 in tables && x.0 in dests && NamesHop(dests[x.0], tables[x.0], dest, x.1)
  }

  lemma LookupGuides(g: Graph, ips: map<NodeId, nat>, masks: map<NodeId, nat>, dests: map<NodeId, seq<NodeId>>,
                     tables: Tables,
                     address: nat, owner: NodeId)
    requires Converged(g, ips, masks, dests, tables) && Owner(g, ips, masks, address, owner)
    ensures Guides(g, LookupHandOvers(tables, address), owner)
  {
    var next := LookupHandOvers(tables, address);
    hide Answers, Owner, HasTable, Shortest, StartsShortest, AllKnown;
    forall r, m: nat | r in g && r != owner && m < FAILED_COST && Shortest(g, r, owner, m)
      ensures GuidesAt(g, next, owner, r, m)
    {
      var found, hop := AnswerExists(tables[r], address);
      LookupLeadsToOwner(g, ips, masks, dests, tables, address, owner, r, m, found, hop);
      assert (r, hop) in next;
      forall h: NodeId | (r, h) in next
        ensures StartsShortest(g, r, owner, h, m)
      {
        LookupLeadsToOwner(g, ips, masks, dests, tables, address, owner, r, m, true, h);
      }
    }
  }

  /** The entry of router `r` for a destination within reach names a next hop that starts a shortest walk. */
  lemma EntryGuidesAt(g: Graph, ips: map<NodeId, nat>, masks: map<NodeId, nat>, dests: map<NodeId, seq<NodeId>>,
                      tables: Tables,
                      dest: NodeId, r: NodeId, m: nat)
    requires Converged(g, ips, masks, dests, tables)
    requires dest in g && r in g && r != dest && m < FAILED_COST && Shortest(g, r, dest, m)
    ensures GuidesAt(g, EntryHandOvers(dests, tables, dest), dest, r, m)
  {
    var next := EntryHandOvers(dests, tables, dest);
    hide TableFor, Shortest, StartsShortest;
    assert HasTable(g, r, ips, masks, dests[r], tables[r]);
    var hops :| TableFor(g, r, ips, masks, hops, dests[r], tables[r]);
    assert Within(g, r, dest);
    TableHoldsReachable(g, r, ips, masks, hops, dests[r], tables[r], dest);
    TableLength(g, r, ips, masks, hops, dests[r], tables[r]);
    var i :| 0 <= i < |dests[r]| && dests[r][i] == dest;
    assert NamesHop(dests[r], tables[r], dest, tables[r][i].nextHopId);
    assert (r, tables[r][i].nextHopId) in next;
    forall h: NodeId | (r, h) in next
      ensures StartsShortest(g, r, dest, h, m)
    {
      var j :| 0 <= j < |dests[r]| && j < |tables[r]| && dests[r][j] == dest && tables[r][j].nextHopId == h;
      EntryIsShortest(g, r, ips, masks, hops, dests[r], tables[r], j);
      ShortestUnique(g, r, dest, m, tables[r][j].metric);
    }
  }

  /** Every packet looked up by address arrives at the owner of the address: from any router whose metric for the owner
      is below the failure cost, at exactly that cost, and without loops. */
  lemma LookupDelivers(g: Graph, ips: map<NodeId, nat>, masks: map<NodeId, nat>, dests: map<NodeId, seq<NodeId>>,
                       tables: Tables,
                       address: nat, owner: NodeId)
    requires Converged(g, ips, masks, dests, tables) && Owner(g, ips, masks, address, owner)
    ensures Reliable(g, LookupHandOvers(tables, address), owner)
  {
    LookupGuides(g, ips, masks, dests, tables, address, owner);
    GuidesReliably(g, LookupHandOvers(tables, address), owner);
  }

  /** Following the next hops of the entries for a destination node reaches it: from any router whose metric is below
      the failure cost, at exactly that cost, and without loops. */
  lemma EntriesDeliver(g: Graph, ips: map<NodeId, nat>, masks: map<NodeId, nat>, dests: map<NodeId, seq<NodeId>>,
                       tables: Tables,
                       dest: NodeId)
    requires Converged(g, ips, masks, dests, tables) && dest in g
    ensures Reliable(g, EntryHandOvers(dests, tables, dest), dest)
  {
    var next := EntryHandOvers(dests, tables, dest);
    hide HasTable, Shortest, StartsShortest, AllKnown, GuidesAt;
    forall r, m: nat | r in g && r != dest && m < FAILED_COST && Shortest(g, r, dest, m)
      ensures GuidesAt(g, next, dest, r, m)
    {
      EntryGuidesAt(g, ips, masks, dests, tables, dest, r, m);
    }
    GuidesReliably(g, next, dest);
  }
}
