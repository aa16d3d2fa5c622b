/** Forwarding hop by hop when every hand-over starts a shortest walk: packets arrive, at the promised cost, and never
    loop. */
module HopByHop {
  import opened Paths
  import opened ShortestRoutes
  import opened Effective

  /** The pairs of a router and a node it may hand a packet to. */
  type HandOvers = iset<(NodeId, NodeId)>

  /** At router `r` there is a hand-over, and every one starts a shortest walk of weight `m` to the destination. */
  ghost predicate GuidesAt(g: Graph, next: HandOvers, dest: NodeId, r: NodeId, m: nat) {
    && (exists hop: NodeId :: (r, hop) in next)
    && (forall hop: NodeId :: (r, hop) in next ==> StartsShortest(g, r, dest, hop, m))
  }

  /** All links cost something, and the hand-overs guide at every router that reaches the destination below the
      failure cost. */
  ghost predicate Guides(g: Graph, next: HandOvers, dest: NodeId) {
    && SelfContained(g)
    && (forall u, e: Edge :: u in g && e in g[u] ==> e.1 > 0)
    && (forall r, m: nat :: r in g && r != dest && m < FAILED_COST && Shortest(g, r, dest, m) ==>
      GuidesAt(g, next, dest, r, m))
  }

  /** Every router on the walk `p` from `r` may hand a packet to the next node of the walk. */
  ghost predicate Follows(next: HandOvers, r: NodeId, p: seq<Edge>)
    decreases p
  {
    p == [] || ((r, p[0].0) in next && Follows(next, p[0].0, p[1..]))
  }

  /** The walk `p` follows the hand-overs from `r`, ends at the destination and weighs `m`. */
  ghost predicate DeliversAlong(g: Graph, next: HandOvers, dest: NodeId, r: NodeId, m: nat, p: seq<Edge>) {
    IsWalk(g, r, p, dest) && Weight(p) == m && Follows(next, r, p)
  }

  lemma SomeHop(g: Graph, next: HandOvers, dest: NodeId, r: NodeId, m: nat) returns (hop: NodeId)
    requires Guides(g, next, dest) && r in g && r != dest && m < FAILED_COST && Shortest(g, r, dest, m)
    ensures (r, hop) in next
  {
    hide Shortest, StartsShortest;
    assert GuidesAt(g, next, dest, r, m);
    hop :| (r, hop) in next;
  }

  /** One hand-over leads to a node of the graph from which strictly less is left. */
  lemma HandOver(g: Graph, next: HandOvers, dest: NodeId, r: NodeId, m: nat, hop: NodeId) returns (e: Edge)
    requires Guides(g, next, dest) && r in g && r != dest && m < FAILED_COST && Shortest(g, r, dest, m)
    requires (r, hop) in next
    ensures e in g[r] && e.0 == hop && 0 < e.1 <= m && hop in g && Shortest(g, hop, dest, m - e.1)
  {
    hide Shortest;
    assert GuidesAt(g, next, dest, r, m);
    assert StartsShortest(g, r, dest, hop, m);
    e :| e in g[r] && e.0 == hop && e.1 <= m && Shortest(g, hop, dest, m - e.1);
    var k :| 0 <= k < |g[r]| && g[r][k] == e;
  }

  lemma ArrivedAlong(g: Graph, next: HandOvers, dest: NodeId, m: nat)
    requires Shortest(g, dest, dest, m)
    ensures DeliversAlong(g, next, dest, dest, m, [])
  {
    assert IsWalk(g, dest, [], dest) && Weight([]) == 0;
  }

  lemma HandedAlong(g: Graph, next: HandOvers, dest: NodeId, r: NodeId, m: nat, e: Edge, p: seq<Edge>)
    requires r in g && e in g[r] && e.1 <= m && (r, e.0) in next
    requires DeliversAlong(g, next, dest, e.0, m - e.1, p)
    ensures DeliversAlong(g, next, dest, r, m, [e] + p)
  {
    WalkCons(g, r, e, p, dest);
    assert ([e] + p)[1..] == p;
  }

  /** Delivery. From any router with a distance below the failure cost, forwarding reaches the destination along a
      walk of exactly that weight. */
  lemma {:induction false} Delivered(g: Graph, next: HandOvers, dest: NodeId, r: NodeId, m: nat)
    requires Guides(g, next, dest) && r in g && m < FAILED_COST && Shortest(g, r, dest, m)
    ensures exists p :: DeliversAlong(g, next, dest, r, m, p)
    decreases m
  {
    hide Shortest, DeliversAlong;
    if r == dest {
      ArrivedAlong(g, next, dest, m);
    } else {
      hide Guides;
      var hop := SomeHop(g, next, dest, r, m);
      var e := HandOver(g, next, dest, r, m, hop);
      Delivered(g, next, dest, hop, m - e.1);
      var p :| DeliversAlong(g, next, dest, hop, m - e.1, p);
      HandedAlong(g, next, dest, r, m, e, p);
    }
  }

  /** The nodes of `route` hand over to one another, and none but the last is the destination. */
  ghost predicate Forwards(next: HandOvers, dest: NodeId, route: seq<NodeId>) {
    |route| <= 1 || (route[0] != dest && (route[0], route[1]) in next && Forwards(next, dest, route[1..]))
  }

  /** The distances left along a route, which strictly decrease. */
  ghost predicate Descends(g: Graph, dest: NodeId, route: seq<NodeId>, rest: seq<nat>) {
    && |rest| == |route|
    && (forall i :: 0 <= i < |route| ==> route[i] in g && Shortest(g, route[i], dest, rest[i]))
    && (forall i, j :: 0 <= i < j < |route| ==> rest[j] < rest[i])
  }

  lemma DescendsFrom(g: Graph, dest: NodeId, route: seq<NodeId>, m: nat, below: seq<nat>)
    requires |route| > 1 && route[0] in g && Shortest(g, route[0], dest, m)
    requires Descends(g, dest, route[1..], below) && below[0] < m
    ensures Descends(g, dest, route, [m] + below)
  {
    hide Shortest;
    var rest := [m] + below;
    forall i | 0 <= i < |route|
      ensures route[i] in g && Shortest(g, route[i], dest, rest[i])
    {
      if i > 0 {
        assert route[i] == route[1..][i - 1];
      }
    }
    assert forall i :: 0 <= i < |below| ==> below[i] <= below[0];
  }

  lemma {:induction false} RestDescends(g: Graph, next: HandOvers, dest: NodeId, route: seq<NodeId>, m: nat)
    returns (rest: seq<nat>)
    requires Guides(g, next, dest) && route != [] && Forwards(next, dest, route)
    requires route[0] in g && m < FAILED_COST && Shortest(g, route[0], dest, m)
    ensures Descends(g, dest, route, rest) && rest[0] == m
    decreases route
  {
    hide Shortest, Guides;
    if |route| == 1 {
      rest := [m];
    } else {
      var e := HandOver(g, next, dest, route[0], m, route[1]);
      var below := RestDescends(g, next, dest, route[1..], m - e.1);
      DescendsFrom(g, dest, route, m, below);
      rest := [m] + below;
    }
  }

  /** No loops. However far a packet is forwarded, the distance left strictly decreases, so it never visits a router
      twice and takes at most as many hops as the distance of the first router. */
  lemma NoForwardingLoop(g: Graph, next: HandOvers, dest: NodeId, route: seq<NodeId>, m: nat)
    requires Guides(g, next, dest) && route != [] && Forwards(next, dest, route)
    requires route[0] in g && m < FAILED_COST && Shortest(g, route[0], dest, m)
    ensures exists rest :: Descends(g, dest, route, rest) && rest[0] == m
    ensures forall i, j :: 0 <= i < j < |route| ==> route[i] != route[j]
    ensures |route| <= m + 1
  {
    var rest := RestDescends(g, next, dest, route, m);
    hide Guides, Forwards;
    forall i, j | 0 <= i < j < |route|
      ensures route[i] != route[j]
    {
      if route[i] == route[j] {
        ShortestUnique(g, route[i], dest, rest[i], rest[j]);
      }
    }
    DescendingLength(rest);
  }

  lemma {:induction false} DescendingLength(rest: seq<nat>)
    requires rest != [] && forall i, j :: 0 <= i < j < |rest| ==> rest[j] < rest[i]
    ensures |rest| <= rest[0] + 1
  {
    if |rest| > 1 {
      DescendingLength(rest[1..]);
    }
  }

  /** Packets for the destination arrive from everywhere within reach, at the promised cost and without loops. */
  ghost predicate Reliable(g: Graph, next: HandOvers, dest: NodeId) {
    && (forall r, m: nat :: r in g && m < FAILED_COST && Shortest(g, r, dest, m) ==>
      exists p :: DeliversAlong(g, next, dest, r, m, p))
    && (forall route: seq<NodeId>, m: nat ::
          route != [] && route[0] in g && m < FAILED_COST && Shortest(g, route[0], dest, m) &&
            Forwards(next, dest, route) ==>
            |route| <= m + 1 && forall i, j :: 0 <= i < j < |route| ==> route[i] != route[j])
  }

  lemma GuidesReliably(g: Graph, next: HandOvers, dest: NodeId)
    requires Guides(g, next, dest)
    ensures Reliable(g, next, dest)
  {
    hide Guides, Shortest, DeliversAlong, Forwards, Descends;
    forall r, m: nat | r in g && m < FAILED_COST && Shortest(g, r, dest, m)
      ensures exists p :: DeliversAlong(g, next, dest, r, m, p)
    {
      Delivered(g, next, dest, r, m);
    }
    forall route: seq<NodeId>, m: nat |
      route != [] && route[0] in g && m < FAILED_COST && Shortest(g, route[0], dest, m) && Forwards(next, dest, route)
      ensures |route| <= m + 1 && forall i, j :: 0 <= i < j < |route| ==> route[i] != route[j]
    {
      NoForwardingLoop(g, next, dest, route, m);
    }
  }
}
