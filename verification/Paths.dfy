/** Weighted directed graphs, walks and shortest distances: the yardstick for route computation. */
module Paths {

  type NodeId = nat

  /** A neighbour and the cost of the link to it. */
  type Edge = (NodeId, nat)

  type Graph = map<NodeId, seq<Edge>>

  /** Every neighbour is itself a node of the graph. */
  ghost predicate SelfContained(g: Graph) {
    forall u, i :: u in g && 0 <= i < |g[u]| ==> g[u][i].0 in g
  }

  /** `p` lists the links followed from `a` to `b`. */
  ghost predicate IsWalk(g: Graph, a: NodeId, p: seq<Edge>, b: NodeId)
    decreases p
  {
    if p == [] then a == b
    else a in g && p[0] in g[a] && IsWalk(g, p[0].0, p[1..], b)
  }

  function Weight(p: seq<Edge>): nat {
    if p == [] then 0 else p[0].1 + Weight(p[1..])
  }

  /** `d` is the least weight of a walk from `a` to `b`. */
  ghost predicate Shortest(g: Graph, a: NodeId, b: NodeId, d: nat) {
    && (exists p :: IsWalk(g, a, p, b) && Weight(p) == d)
    && (forall p :: IsWalk(g, a, p, b) ==> d <= Weight(p))
  }

  lemma {:induction false} WalkSnoc(g: Graph, a: NodeId, p: seq<Edge>, u: NodeId, e: Edge)
    requires IsWalk(g, a, p, u) && u in g && e in g[u]
    ensures IsWalk(g, a, p + [e], e.0) && Weight(p + [e]) == Weight(p) + e.1
    decreases p
  {
    if p == [] {
      assert IsWalk(g, e.0, [], e.0);
      assert (p + [e])[1..] == [];
    } else {
      WalkSnoc(g, p[0].0, p[1..], u, e);
      assert (p + [e])[1..] == p[1..] + [e];
    }
  }

  lemma WalkCons(g: Graph, a: NodeId, e: Edge, p: seq<Edge>, b: NodeId)
    requires a in g && e in g[a] && IsWalk(g, e.0, p, b)
    ensures IsWalk(g, a, [e] + p, b) && Weight([e] + p) == e.1 + Weight(p)
  {
    assert ([e] + p)[1..] == p;
  }

  lemma ShortestUnique(g: Graph, a: NodeId, b: NodeId, d: nat, d': nat)
    requires Shortest(g, a, b, d) && Shortest(g, a, b, d')
    ensures d == d'
  {
  }

  /** No link from a node labelled below `top` improves a label. */
  ghost predicate Stable(g: Graph, top: nat, dist: map<NodeId, nat>) {
    && g.Keys <= dist.Keys
    && (forall u, i :: u in g && 0 <= i < |g[u]| && g[u][i].0 in g && dist[u] < top ==>
          dist[g[u][i].0] < top && dist[g[u][i].0] <= dist[u] + g[u][i].1)
  }

  /** A stable labelling bounds the weight of every walk from below. */
  lemma {:induction false} StableBound(g: Graph, top: nat, dist: map<NodeId, nat>, a: NodeId, p: seq<Edge>, b: NodeId)
    requires Stable(g, top, dist) && a in g && b in g && dist[a] < top && IsWalk(g, a, p, b)
    ensures dist[b] < top && dist[b] <= dist[a] + Weight(p)
    decreases p
  {
    if p != [] {
      var i :| 0 <= i < |g[a]| && g[a][i] == p[0];
      StableBound(g, top, dist, p[0].0, p[1..], b);
    }
  }
}
