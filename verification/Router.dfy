/** A link-state router: its breakers, its routing table, route computation and lookup. */
module Routers {
  import opened Bits
  import opened Addressing
  import opened Paths
  import opened Search
  import opened ShortestRoutes
  import opened Effective
  import opened CostBounds
  import opened RouteTables
  import opened Lookup
  import opened CircuitBreakers
  import opened LinkBreakers

  lemma {:induction false} DistinctFit(order: seq<NodeId>, s: set<NodeId>)
    requires forall i :: 0 <= i < |order| ==> order[i] in s
    requires forall i, j :: 0 <= i < j < |order| ==> order[i] != order[j]
    ensures |order| <= |s|
  {
    if order != [] {
      DistinctFit(order[1..], s - {order[0]});
    }
  }

  /** What the relaxation of a link may assume of the search: its sum does not wrap. */
  lemma LinkFacts(g: Graph, src: NodeId, dist: Labels, parent: Parents, heap: Heap, order: seq<NodeId>, k: nat,
                  u: NodeId)
    requires Inv(g, src, dist, parent, heap, order, k) && LinksFit(g, src)
    requires order != [] && u == order[|order| - 1] && u in g && k < |g[u]|
    requires u in dist && Shortest(g, src, u, dist[u])
    ensures g.Keys <= dist.Keys && dist[u] + g[u][k].1 < UNREACHED
    ensures forall v :: v in dist && v !in g ==> dist[v] == 0
  {
    hide TreeOk, HeapOk, Seen, Shortest;
    assert g[u][k] in g[u];
  }

  lemma HeapFacts(g: Graph, src: NodeId, dist: Labels, parent: Parents, heap: Heap, order: seq<NodeId>, k: nat,
                  e: HeapEntry)
    requires Inv(g, src, dist, parent, heap, order, k) && IsLeast(e, heap)
    ensures e in heap && e.1 in dist && e.1 in g
  {
    hide TreeOk, Seen, OrderOk;
  }

  lemma OrderOfInv(g: Graph, src: NodeId, dist: Labels, parent: Parents, heap: Heap, order: seq<NodeId>, k: nat)
    requires Inv(g, src, dist, parent, heap, order, k)
    ensures OrderOk(g, src, order, k)
  {
    hide OrderOk, LabelsOk, TreeOk, HeapOk;
  }

  /** A node about to be expanded for the first time leaves room for its expansion. */
  lemma OneMoreFits(g: Graph, src: NodeId, order: seq<NodeId>, k: nat, u: NodeId)
    requires OrderOk(g, src, order, k) && u in g && u !in order
    ensures |order| < |g|
  {
    DistinctFit(order + [u], g.Keys);
  }

  lemma EffectiveKeys(g: Graph, src: NodeId, open: seq<bool>)
    requires Readings(g, src, open)
    ensures EffectiveGraph(g, src, open).Keys == g.Keys && |EffectiveGraph(g, src, open)| == |g|
  {
    assert |EffectiveGraph(g, src, open).Keys| == |EffectiveGraph(g, src, open)|;
  }

  lemma LastAllSeen(g: Graph, src: NodeId, open: seq<bool>, order: seq<NodeId>, k: nat)
    requires Readings(g, src, open) && order != [] && order[|order| - 1] in g && k == |g[order[|order| - 1]]|
    ensures AllSeen(EffectiveGraph(g, src, open), order, k)
  {
  }

  lemma EffectiveLinks(g: Graph, src: NodeId, open: seq<bool>, u: NodeId)
    requires Readings(g, src, open) && u in g
    ensures u in EffectiveGraph(g, src, open) && |EffectiveGraph(g, src, open)[u]| == |g[u]|
  {
  }

  lemma EffectiveLink(g: Graph, src: NodeId, open: seq<bool>, u: NodeId, k: nat)
    requires Readings(g, src, open) && u in g && k < |g[u]|
    ensures var eff: Graph := EffectiveGraph(g, src, open);
      u in eff && |eff[u]| == |g[u]|
      && eff[u][k] == (g[u][k].0, if u == src && open[k] then FAILED_COST else g[u][k].1)
  {
  }

  /** When no breaker is stored as Open a run works on the topology itself. */
  lemma NoneReadsOpen(g: Graph, src: NodeId, breakers: LinkStates, clock: seq<Reading>)
    requires src in g && |clock| == |g[src]|
    requires forall i :: 0 <= i < |g[src]| && g[src][i].0 in breakers ==> breakers[g[src][i].0].breaker.state != Open
    ensures EffectiveGraph(g, src, OpenLinks(breakers, g[src], clock)) == g
  {
    var open := OpenLinks(breakers, g[src], clock);
    forall i | 0 <= i < |open|
      ensures !open[i]
    {
      OnlyOpenReadsOpen(breakers, g[src], clock, i);
    }
    NothingOpen(g, src, open);
  }

  lemma ReadAsOpenHere(breakers: LinkStates, v: NodeId, r: Reading)
    requires v in breakers ==> breakers[v].breaker.since <= r.check
    ensures v in breakers && breakers[v].config.recoveryTimeoutMs < 0x8000_0000_0000_0000 ==>
      (IsOpen(breakers, v, r) <==>
        breakers[v].breaker.state == Open &&
        r.check - breakers[v].breaker.since < breakers[v].config.recoveryTimeoutMs * 1_000_000)
  {
    if v in breakers && breakers[v].config.recoveryTimeoutMs < 0x8000_0000_0000_0000 {
      ReadAsOpen(breakers, v, r);
    }
  }

  /** Takes the least entry off the heap. It is stale when its node was relabelled after it was pushed; otherwise
      its node is expanded for the first time. */
  method PopLeast(ghost g: Graph, ghost src: NodeId, dist: Labels, ghost parent: Parents, heap: Heap,
                  ghost order: seq<NodeId>, ghost k: nat)
    returns (stale: bool, currentDist: nat, u: NodeId, rest: Heap)
    requires |heap| > 0 && Inv(g, src, dist, parent, heap, order, k) && AllSeen(g, order, k)
    ensures |rest| < |heap| && IsLeast((currentDist, u), heap) && rest == heap - multiset{(currentDist, u)}
    ensures u in g && u in dist && (stale <==> currentDist > dist[u])
    ensures stale ==> Inv(g, src, dist, parent, rest, order, k)
    ensures !stale ==> Inv(g, src, dist, parent, rest, order + [u], 0) && dist[u] == currentDist
    ensures !stale ==> u !in order && (order == [] <==> u == src) && |order| < |g| && Shortest(g, src, u, currentDist)
  {
    hide Inv, AllSeen, IsLeast, OrderOk, Shortest;
    LeastExists(heap);
    var top: HeapEntry :| IsLeast(top, heap);
    HeapFacts(g, src, dist, parent, heap, order, k, top);
    currentDist, u := top.0, top.1;
    rest := heap - multiset{top};
    stale := currentDist > dist[u];
    if stale {
      DropStale(g, src, dist, parent, heap, order, k, top);
    } else {
      LeastIsNew(g, src, dist, parent, heap, order, k, top);
      ExpandedIsShortest(g, src, dist, parent, heap, order, k, top);
      assert OrderOk(g, src, order, k) by { OrderOfInv(g, src, dist, parent, heap, order, k); }
      OneMoreFits(g, src, order, k, u);
      Expand(g, src, dist, parent, heap, order, k, top);
    }
  }

  /** Looks at one link of the node `u` that was just expanded at distance `currentDist`. */
  method RelaxLink(ghost g: Graph, ghost src: NodeId, v: NodeId, cost: nat, u: NodeId, currentDist: nat,
                   distances: Labels, parents: Parents, minHeap: Heap, ghost order: seq<NodeId>, ghost k: nat)
    returns (dist: Labels, parent: Parents, heap: Heap)
    requires Inv(g, src, distances, parents, minHeap, order, k) && LinksFit(g, src)
    requires order != [] && order[|order| - 1] == u && u in g && k < |g[u]| && g[u][k] == (v, cost)
    requires u in distances && distances[u] == currentDist && Shortest(g, src, u, currentDist)
    ensures Inv(g, src, dist, parent, heap, order, k + 1) && u in dist && dist[u] == currentDist
    ensures Work(dist, parent, heap) == Relax(Work(distances, parents, minHeap), u, currentDist, (v, cost))
  {
    hide Inv, LinksFit, Shortest;
    LinkFacts(g, src, distances, parents, minHeap, order, k, u);
    dist, parent, heap := distances, parents, minHeap;
    var newDist := (currentDist + cost) % WORD32;
    if v !in dist {
      Pass(g, src, dist, parent, heap, order, k, u, v, dist[v := 0]);
      dist := dist[v := 0];
    } else if newDist < dist[v] {
      Improve(g, src, dist, parent, heap, order, k, u, v, newDist);
      dist := dist[v := newDist];
      parent := parent[v := u];
      heap := heap + multiset{(newDist, v)};
    } else {
      Pass(g, src, dist, parent, heap, order, k, u, v, dist);
    }
  }

  /** The parent walk: climbs from `dest` to the child of the source above it. */
  method FirstHop(ghost g: Graph, src: NodeId, ghost dist: Labels, parent: Parents, ghost order: seq<NodeId>,
                  dest: NodeId)
    returns (current: NodeId)
    requires Solved(g, src, dist, parent, order) && dest in dist && dest != src
    requires dest in g ==> dist[dest] < UNREACHED
    ensures dest in g ==> StartsShortest(g, src, dest, current, dist[dest])
    ensures dest !in g ==> current == dest
  {
    current := dest;
    ghost var q: seq<Edge> := [];
    while current in parent && parent[current] != src
      invariant dest in g ==> OnTree(g, dist, parent, current, q, dest)
      invariant dest !in g ==> current == dest
      decreases if current in parent && current in order then 1 + IndexOf(order, current) else 0
    {
      ClimbTree(g, src, dist, parent, order, current, q, dest);
      q := [(current, dist[current] - dist[parent[current]])] + q;
      current := parent[current];
    }
    if dest in g {
      TopOfTree(g, src, dist, parent, order, current, q, dest);
    }
  }

  class Router {
    const id: NodeId
    var routingTable: seq<RoutingTableEntry>
    var linkBreakers: map<NodeId, CircuitBreaker>
    /** The destination of each table entry, and the next hop the last run chose for each destination. */
    ghost var dests: seq<NodeId>
    ghost var hops: map<NodeId, NodeId>

    constructor (id: NodeId)
      ensures Valid() && this.id == id && routingTable == [] && linkBreakers == map[]
    {
      this.id := id;
      routingTable, linkBreakers, dests, hops := [], map[], [], map[];
    }

    /** Each link has a breaker of its own. */
    ghost predicate Valid()
      reads this`linkBreakers
    {
      forall a, b :: a in linkBreakers && b in linkBreakers && a != b ==> linkBreakers[a] != linkBreakers[b]
    }

    /** The breaker of a link is created on first use. */
    method EnsureBreaker(neighborId: NodeId, now: nat)
      requires Valid()
      modifies this`linkBreakers
      ensures Valid() && linkBreakers.Keys == old(linkBreakers.Keys) + {neighborId}
      ensures forall n :: n in old(linkBreakers) ==> linkBreakers[n] == old(linkBreakers[n])
      ensures neighborId !in old(linkBreakers) ==>
        var b := linkBreakers[neighborId];
        fresh(b) && b.View() == Breaker(Closed, 0, 0, now) && b.Settings() == Config(3, 5000)
    {
      if neighborId !in linkBreakers {
        var b := new CircuitBreaker.Default(now);
        linkBreakers := linkBreakers[neighborId := b];
      }
    }

    method RecordLinkFailure(neighborId: NodeId, now: nat, r: Reading)
      requires Valid() && now <= r.check
      requires neighborId in linkBreakers ==> linkBreakers[neighborId].View().since <= r.check
      modifies this`linkBreakers, linkBreakers.Values
      ensures Valid() && linkBreakers.Keys == old(linkBreakers.Keys) + {neighborId}
      ensures var b := linkBreakers[neighborId];
        b.View() == if neighborId in old(linkBreakers) then Fail(b.Settings(), old(linkBreakers[neighborId].View()),
          r).0
                    else Fail(Config(3, 5000), Breaker(Closed, 0, 0, now), r).0
      ensures forall n :: n in old(linkBreakers) && n != neighborId ==>
        linkBreakers[n] == old(linkBreakers[n]) && linkBreakers[n].View() == old(linkBreakers[n].View())
    {
      EnsureBreaker(neighborId, now);
      var _ := linkBreakers[neighborId].RecordFailure(r);
    }

    method RecordLinkSuccess(neighborId: NodeId, now: nat, r: Reading)
      requires Valid() && now <= r.check
      requires neighborId in linkBreakers ==> linkBreakers[neighborId].View().since <= r.check
      modifies this`linkBreakers, linkBreakers.Values
      ensures Valid() && linkBreakers.Keys == old(linkBreakers.Keys) + {neighborId}
      ensures var b := linkBreakers[neighborId];
        b.View() == if neighborId in old(linkBreakers) then Succeed(b.Settings(),
          old(linkBreakers[neighborId].View()), r).0
                    else Succeed(Config(3, 5000), Breaker(Closed, 0, 0, now), r).0
      ensures forall n :: n in old(linkBreakers) && n != neighborId ==>
        linkBreakers[n] == old(linkBreakers[n]) && linkBreakers[n].View() == old(linkBreakers[n].View())
    {
      EnsureBreaker(neighborId, now);
      var _ := linkBreakers[neighborId].RecordSuccess(r);
    }

    ghost function Breakers(): LinkStates
      reads this`linkBreakers, linkBreakers.Values
    {
      map n | n in linkBreakers :: LinkState(linkBreakers[n].Settings(), linkBreakers[n].View())
    }

    /** These links have no breaker, or one that is stored as Closed or HalfOpen. */
    ghost predicate NoneOpen(links: seq<Edge>)
      reads this`linkBreakers, linkBreakers.Values
    {
      forall i :: 0 <= i < |links| && links[i].0 in linkBreakers ==>
        linkBreakers[links[i].0].state in {Closed, HalfOpen}
    }

    lemma NoneOpenReads(graph: Graph, clock: seq<Reading>)
      requires id in graph && |clock| == |graph[id]| && NoneOpen(graph[id])
      ensures EffectiveGraph(graph, id, OpenLinks(Breakers(), graph[id], clock)) == graph
    {
      NoneReadsOpen(graph, id, Breakers(), clock);
    }

    /** The cost of a source link: its breaker, if it has one, is polled. */
    method SourceLinkCost(v: NodeId, originalCost: nat, r: Reading) returns (cost: nat)
      requires Valid() && (v in linkBreakers ==> Breakers()[v].breaker.since <= r.check)
      modifies linkBreakers.Values
      ensures cost == if IsOpen(old(Breakers()), v, r) then FAILED_COST else originalCost
      ensures Breakers() == PollLink(old(Breakers()), v, r)
      ensures v in linkBreakers && linkBreakers[v].recoveryTimeoutMs < 0x8000_0000_0000_0000 ==>
        cost == if old(linkBreakers[v].state) == Open &&
                   r.check - old(linkBreakers[v].lastStateChangeTime) < linkBreakers[v].recoveryTimeoutMs * 1_000_000
                then 999_999 else originalCost
      ensures v !in linkBreakers ==> cost == originalCost
    {
      ReadAsOpenHere(Breakers(), v, r);
      cost := originalCost;
      if v in linkBreakers {
        var s := linkBreakers[v].GetState(r);
        if s == Open {
          cost := FAILED_COST;
        }
      }
    }

    /** Looks at every link of the node `u` that was just expanded at distance `currentDist`. */
    method RelaxLinks(graph: Graph, ghost eff: Graph, ghost open: seq<bool>, clock: seq<Reading>,
                      u: NodeId, currentDist: nat, distances: Labels, parents: Parents, minHeap: Heap,
                        ghost order: seq<NodeId>)
      returns (dist: Labels, parent: Parents, heap: Heap)
      requires Valid() && u in graph && Readings(graph, id, open) && eff == EffectiveGraph(graph, id, open)
      requires order != [] && order[|order| - 1] == u && LinksFit(eff, id)
      requires Inv(eff, id, distances, parents, minHeap, order, 0) && u in distances && distances[u] == currentDist
      requires Shortest(eff, id, u, currentDist)
      requires u == id ==> |clock| == |graph[u]| && MonotoneClock(clock) && ClockStarts(Breakers(), clock)
      requires u == id ==> open == OpenLinks(Breakers(), graph[u], clock)
      modifies linkBreakers.Values
      ensures Inv(eff, id, dist, parent, heap, order, |graph[u]|)
      ensures u in eff && Work(dist, parent, heap) ==
        RelaxFirst(Work(distances, parents, minHeap), u, currentDist, eff[u], |eff[u]|)
      ensures Breakers() == if u == id then AfterPolls(old(Breakers()), graph[u], clock, |clock|) else old(Breakers())
    {
      hide Inv, LinksFit, EffectiveGraph, Shortest, Relax, OnlyPolled, IsOpen, PollLink, MonotoneClock, ClockStarts;
      dist, parent, heap := distances, parents, minHeap;
      var links := graph[u];
      EffectiveLinks(graph, id, open, u);
      for k := 0 to |links|
        invariant Inv(eff, id, dist, parent, heap, order, k) && u in dist && dist[u] == currentDist
        invariant k <= |eff[u]| &&
          Work(dist, parent, heap) == RelaxFirst(Work(distances, parents, minHeap), u, currentDist, eff[u], k)
        invariant Breakers() == if u == id then AfterPolls(old(Breakers()), links, clock, k) else old(Breakers())
      {
        EffectiveLink(graph, id, open, u, k);
        var (v, originalCost) := links[k];
        var cost := originalCost;
        if u == id {
          EarlierPollsDoNotMatter(old(Breakers()), links, clock, k);
          cost := SourceLinkCost(v, originalCost, clock[k]);
        }
        assert eff[u][k] == (v, cost);
        dist, parent, heap := RelaxLink(eff, id, v, cost, u, currentDist, dist, parent, heap, order, k);
      }
    }

    /** One round of the search: the least entry leaves the heap, and unless it is stale its node is expanded. Breakers
        are polled in the round that expands the source, which is the first. */
    method OneRound(graph: Graph, ghost eff: Graph, ghost before: LinkStates, clock: seq<Reading>,
                    distances: Labels, parents: Parents, minHeap: Heap, ghost expanded: seq<NodeId>, ghost seen: nat)
      returns (dist: Labels, parent: Parents, heap: Heap, ghost order: seq<NodeId>, ghost k: nat, ghost top: HeapEntry)
      requires Valid() && id in graph && |clock| == |graph[id]| && MonotoneClock(clock) && ClockStarts(before, clock)
      requires var open := OpenLinks(before, graph[id], clock);
        Readings(graph, id, open) && eff == EffectiveGraph(graph, id, open)
      requires LinksFit(eff, id) && eff.Keys == graph.Keys && |eff| == |graph|
      requires |minHeap| > 0 && Inv(eff, id, distances, parents, minHeap, expanded, seen) &&
        AllSeen(eff, expanded, seen)
      requires Breakers() == if expanded == [] then before else AfterPolls(before, graph[id], clock, |clock|)
      modifies linkBreakers.Values
      ensures Inv(eff, id, dist, parent, heap, order, k) && AllSeen(eff, order, k)
      ensures IsLeast(top, minHeap) && top.1 in distances
      ensures Work(dist, parent, heap) == AfterTop(eff, Work(distances, parents, minHeap), top)
      ensures Breakers() == if order == [] then before else AfterPolls(before, graph[id], clock, |clock|)
      ensures (order == expanded && |heap| < |minHeap|) || |expanded| < |order| <= |graph|
    {
      hide Inv, LinksFit, Shortest, RelaxFirst, IsLeast, AllSeen, EffectiveGraph, AfterPolls, MonotoneClock,
        ClockStarts,
        OpenLinks, Breakers, Valid;
      ghost var open := OpenLinks(before, graph[id], clock);
      var stale, currentDist, u, rest := PopLeast(eff, id, distances, parents, minHeap, expanded, seen);
      top := (currentDist, u);
      if stale {
        return distances, parents, rest, expanded, seen, top;
      }
      order := expanded + [u];
      k := |graph[u]|;
      // Only nodes of the graph are ever pushed, so the guard against a missing one never fires.
      dist, parent, heap := RelaxLinks(graph, eff, open, clock, u, currentDist, distances, parents, rest, order);
      assert AllSeen(eff, order, k) by { LastAllSeen(graph, id, open, order, k); }
    }

    /** The search: shortest distances from this router and the tree they come from. */
    method RunSearch(graph: Graph, ghost eff: Graph, ghost open: seq<bool>, clock: seq<Reading>)
      returns (dist: Labels, parent: Parents, ghost order: seq<NodeId>)
      requires Valid() && id in graph && |clock| == |graph[id]| && MonotoneClock(clock) &&
        ClockStarts(Breakers(), clock)
      requires Readings(graph, id, open) && eff == EffectiveGraph(graph, id, open) && LinksFit(eff, id)
      requires open == OpenLinks(Breakers(), graph[id], clock)
      modifies linkBreakers.Values
      ensures Solved(eff, id, dist, parent, order) && EndsWith(eff, id, dist, parent)
      ensures Breakers() == AfterPolls(old(Breakers()), graph[id], clock, |clock|)
    {
      hide Inv, LinksFit, AfterTop, IsLeast, IsSearch, AllSeen, EffectiveGraph, Solved, AfterPolls, MonotoneClock,
        ClockStarts, OpenLinks, Breakers, Valid;
      EffectiveKeys(graph, id, open);
      dist := map node | node in graph :: UNREACHED;
      parent := map[];
      dist := dist[id := 0];
      var heap: Heap := multiset{(0, id)};
      order := [];
      ghost var k: nat := 0;
      Start(eff, id, dist);
      ghost var run := StartOfSearch(eff, id);
      while |heap| > 0
        invariant Inv(eff, id, dist, parent, heap, order, k) && AllSeen(eff, order, k)
        invariant |order| <= |graph|
        invariant IsSearch(eff, id, run) && run[|run| - 1] == Work(dist, parent, heap)
        invariant Breakers() == if order == [] then old(Breakers()) else AfterPolls(old(Breakers()), graph[id], clock,
          |clock|)
        decreases |graph| - |order|, |heap|
      {
        ghost var top: HeapEntry;
        dist, parent, heap, order, k, top := OneRound(graph, eff, old(Breakers()), clock, dist, parent, heap, order, k);
        run := NextRound(eff, id, run, top);
      }
      assert heap == multiset{};
      EmptyHeapSolves(eff, id, dist, parent, order, k);
    }

    /** The table entry for one destination, if all the addresses it needs are known. */
    method AddRoute(ghost g: Graph, ghost done: set<NodeId>, dest: NodeId, current: NodeId, totalCost: nat,
                    nodeToIp: map<NodeId, nat>, nodeToMask: map<NodeId, nat>)
      requires PartialTable(g, id, nodeToIp, nodeToMask, done, hops, dests, routingTable) && dest !in done
      requires InReach(g, id, dest) && CorrectRoute(g, id, dest, current, totalCost)
      modifies this`routingTable, this`dests, this`hops
      ensures PartialTable(g, id, nodeToIp, nodeToMask, done + {dest}, hops, dests, routingTable)
    {
      hide PartialTable, InReach, EntryFor, CorrectRoute;
      if current !in nodeToIp || dest !in nodeToIp || dest !in nodeToMask {
        AddHop(g, id, nodeToIp, nodeToMask, done, hops, dests, routingTable, dest, current, totalCost);
        hops := hops[dest := current];
        return;
      }
      var destIp, destMask := nodeToIp[dest], nodeToMask[dest];
      var subnetRaw := BitAnd(destIp, destMask);
      var entry := RoutingTableEntry(subnetRaw, destMask, current, "eth0", totalCost);
      EntryIsRight(g, id, nodeToIp, nodeToMask, dest, entry);
      AddEntry(g, id, nodeToIp, nodeToMask, done, hops, dests, routingTable, dest, entry);
      hops := hops[dest := current];
      routingTable := routingTable + [entry];
      dests := dests + [dest];
    }

    /** One entry for every destination below the failure cost whose addresses are known. */
    method BuildTable(ghost g: Graph, dist: Labels, parent: Parents, ghost order: seq<NodeId>,
                      nodeToIp: map<NodeId, nat>, nodeToMask: map<NodeId, nat>)
      requires Solved(g, id, dist, parent, order) && routingTable == [] && dests == [] && hops == map[]
      modifies this`routingTable, this`dests, this`hops
      ensures TableFor(g, id, nodeToIp, nodeToMask, hops, dests, routingTable)
    {
      hide PartialTable, InReach, CorrectRoute, Solved;
      var todo := dist.Keys;
      ghost var done := {};
      NoneDone(g, id, nodeToIp, nodeToMask);
      while todo != {}
        invariant todo + done == dist.Keys && todo !! done
        invariant PartialTable(g, id, nodeToIp, nodeToMask, done, hops, dests, routingTable)
        decreases |todo|
      {
        var dest :| dest in todo;
        LabelIsRoute(g, id, dist, parent, order, dest);
        var totalCost := dist[dest];
        if dest == id || totalCost >= FAILED_COST {
          SkipDest(g, id, nodeToIp, nodeToMask, done, hops, dests, routingTable, dest);
        } else {
          var current := FirstHop(g, id, dist, parent, order, dest);
          RouteIsCorrect(g, id, dest, current, totalCost);
          AddRoute(g, done, dest, current, totalCost, nodeToIp, nodeToMask);
        }
        todo, done := todo - {dest}, done + {dest};
      }
      forall dest | InReach(g, id, dest)
        ensures dest in done
      {
        LabelIsRoute(g, id, dist, parent, order, dest);
      }
    }

    method ComputeRoutes(graph: Graph, nodeToIp: map<NodeId, nat>, nodeToMask: map<NodeId, nat>, clock: seq<Reading>)
      requires Valid()
      requires id in graph ==> |clock| == |graph[id]| && MonotoneClock(clock) && ClockStarts(Breakers(), clock)
      requires id in graph ==> LinksFit(EffectiveGraph(graph, id, OpenLinks(Breakers(), graph[id], clock)), id)
      modifies this`routingTable, this`dests, this`hops, linkBreakers.Values
      ensures Valid()
      ensures id !in graph ==> routingTable == [] && dests == [] && hops == map[] && Breakers() == old(Breakers())
      ensures id in graph ==>
        var open := OpenLinks(old(Breakers()), graph[id], clock);
        TableFor(EffectiveGraph(graph, id, open), id, nodeToIp, nodeToMask, hops, dests, routingTable)
      ensures id in graph ==> Breakers() == AfterPolls(old(Breakers()), graph[id], clock, |clock|)
      ensures id in graph && old(NoneOpen(graph[id])) ==>
        TableFor(graph, id, nodeToIp, nodeToMask, hops, dests, routingTable)
    {
      hide NoneOpen, AfterPolls, LinksFit, EffectiveGraph, TableFor, Breakers, OpenLinks, MonotoneClock, ClockStarts,
        Valid;
      routingTable, dests, hops := [], [], map[];
      if id !in graph {
        return;
      }
      if NoneOpen(graph[id]) {
        NoneOpenReads(graph, clock);
      }
      FillTable(graph, nodeToIp, nodeToMask, clock);
    }

    /** The search and the table built from it. */
    method FillTable(graph: Graph, nodeToIp: map<NodeId, nat>, nodeToMask: map<NodeId, nat>, clock: seq<Reading>)
      requires Valid() && id in graph && routingTable == [] && dests == [] && hops == map[]
      requires |clock| == |graph[id]| && MonotoneClock(clock) && ClockStarts(Breakers(), clock)
      requires LinksFit(EffectiveGraph(graph, id, OpenLinks(Breakers(), graph[id], clock)), id)
      modifies this`routingTable, this`dests, this`hops, linkBreakers.Values
      ensures var open := OpenLinks(old(Breakers()), graph[id], clock);
        TableFor(EffectiveGraph(graph, id, open), id, nodeToIp, nodeToMask, hops, dests, routingTable)
      ensures Breakers() == AfterPolls(old(Breakers()), graph[id], clock, |clock|)
    {
      hide AfterPolls, LinksFit, Shortest, EffectiveGraph, TableFor, Solved, Breakers, OpenLinks, MonotoneClock,
        ClockStarts, Valid;
      ghost var open := OpenLinks(Breakers(), graph[id], clock);
      ghost var eff := EffectiveGraph(graph, id, open);
      var dist, parent, order := RunSearch(graph, eff, open, clock);
      BuildTable(eff, dist, parent, order, nodeToIp, nodeToMask);
    }

    /** The next hop of a covering entry of maximal prefix length, the first of several. */
    method LookupRoute(destinationIp: nat) returns (routeFound: bool, bestNextHop: NodeId)
      ensures Answers(routingTable, destinationIp, routeFound, bestNextHop)
      ensures routeFound ==> exists i ::
        FirstLongestMatch(routingTable, destinationIp, i) && routingTable[i].nextHopId == bestNextHop
      ensures routeFound <==> exists k ::
        0 <= k < |routingTable| && BitAnd(destinationIp, routingTable[k].mask) ==
                                   BitAnd(routingTable[k].destinationSubnet, routingTable[k].mask)
    {
      hide PopCount, Covers;
      routeFound, bestNextHop := false, 0;
      var longestPrefix := 0;
      ghost var best := 0;
      for k := 0 to |routingTable|
        invariant !routeFound ==> bestNextHop == 0 && forall j :: 0 <= j < k ==> !Covers(routingTable[j], destinationIp)
        invariant routeFound ==> 0 <= best < k && Covers(routingTable[best], destinationIp)
        invariant routeFound ==>
          bestNextHop == routingTable[best].nextHopId && longestPrefix == PopCount(routingTable[best].mask)
        invariant routeFound ==> NoneAsLongBefore(routingTable, destinationIp, best)
        invariant routeFound ==> forall j :: 0 <= j < k && Covers(routingTable[j], destinationIp) ==>
          PopCount(routingTable[j].mask) <= longestPrefix
      {
        var entry := routingTable[k];
        CoversIs(entry, destinationIp);
        if BitAnd(destinationIp, entry.mask) == BitAnd(entry.destinationSubnet, entry.mask) {
          var currentPrefix := ToPrefixLength(entry.mask);
          if !routeFound || currentPrefix > longestPrefix {
            routeFound, bestNextHop, longestPrefix, best := true, entry.nextHopId, currentPrefix, k;
          }
        }
      }
      forall k | 0 <= k < |routingTable|
        ensures Covers(routingTable[k], destinationIp) <==>
          BitAnd(destinationIp, routingTable[k].mask) == BitAnd(routingTable[k].destinationSubnet, routingTable[k].mask)
      {
        CoversIs(routingTable[k], destinationIp);
      }
      if routeFound {
        assert FirstLongestMatch(routingTable, destinationIp, best);
      }
    }
  }
}
