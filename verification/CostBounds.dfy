/** When no sum along a search wraps around 32 bits, and a cheap test that guarantees it. */
module CostBounds {
  import opened Bits
  import opened Paths
  import opened Search
  import opened Effective

  /** From no node that `src` reaches does a link lead to a sum as large as the mark of unreached nodes: the sums the
      search forms are those of a link of each reached node to the node's shortest distance. */
  ghost predicate LinksFit(g: Graph, src: NodeId) {
    forall u, d: nat, e: Edge :: u in g && e in g[u] && Shortest(g, src, u, d) ==> d + e.1 < UNREACHED
  }

  ghost predicate CostsAtMost(g: Graph, cap: nat) {
    forall u, e: Edge :: u in g && e in g[u] ==> e.1 <= cap
  }

  /** Every node a walk visits, its end apart, is a node of the graph. */
  lemma {:induction false} NodesInGraph(g: Graph, a: NodeId, p: seq<Edge>, b: NodeId)
    requires IsWalk(g, a, p, b) && b in g
    ensures forall i :: 0 <= i < |p| ==> p[i].0 in g
    ensures a in g
    decreases p
  {
    if p != [] {
      NodesInGraph(g, p[0].0, p[1..], b);
      assert forall i :: 1 <= i < |p| ==> p[i] == p[1..][i - 1];
    }
  }

  /** What is left of a walk from some visit on is a walk. */
  lemma {:induction false} RestOfWalk(g: Graph, a: NodeId, p: seq<Edge>, b: NodeId, i: nat)
    requires IsWalk(g, a, p, b) && i < |p|
    ensures IsWalk(g, p[i].0, p[i + 1..], b) && Weight(p[i + 1..]) <= Weight(p)
    decreases p
  {
    if i > 0 {
      RestOfWalk(g, p[0].0, p[1..], b, i - 1);
      assert p[1..][i - 1] == p[i] && p[1..][i..] == p[i + 1..];
    }
  }

  /** Cutting out round trips: a walk within `nodes` can be replaced by one that is no heavier and visits no node twice,
      so that it weighs at most `cap` for every further node. */
  lemma {:induction false} LightWalk(g: Graph, nodes: set<NodeId>, cap: nat, a: NodeId, p: seq<Edge>, b: NodeId)
    returns (light: seq<Edge>)
    requires CostsAtMost(g, cap) && IsWalk(g, a, p, b)
    requires a in nodes && forall i :: 0 <= i < |p| ==> p[i].0 in nodes
    ensures IsWalk(g, a, light, b) && Weight(light) <= Weight(p)
    ensures Weight(light) + cap <= |nodes| * cap
    decreases |nodes|, |p|
  {
    var others := nodes - {a};
    MulSplit(|others|, cap);
    if p == [] {
      light := [];
    } else if i: nat :| i < |p| && p[i].0 == a {
      RestOfWalk(g, a, p, b, i);
      light := LightWalk(g, nodes, cap, a, p[i + 1..], b);
    } else {
      var e := p[0];
      var rest := LightWalk(g, others, cap, e.0, p[1..], b);
      WalkCons(g, a, e, rest, b);
      light := [e] + rest;
    }
  }

  lemma MulSplit(n: nat, cap: nat)
    ensures (n + 1) * cap == n * cap + cap && n * cap >= 0
  {
    MulNonNegative(n, cap);
  }

  lemma SmallCostsFitIn(g: Graph, src: NodeId, cap: nat)
    requires CostsAtMost(g, cap) && |g| * cap < UNREACHED
    ensures LinksFit(g, src)
  {
    forall u, d: nat, e: Edge | u in g && e in g[u] && Shortest(g, src, u, d)
      ensures d + e.1 < UNREACHED
    {
      var p :| IsWalk(g, src, p, u) && Weight(p) == d;
      NodesInGraph(g, src, p, u);
      var light := LightWalk(g, g.Keys, cap, src, p, u);
      assert |g.Keys| == |g|;
    }
  }

  /** A test that suffices, whatever links are read as Open: no link costs more than `cap`, nor does a failed one, and
      `cap` times the number of nodes fits. */
  lemma SmallCostsFit(g: Graph, src: NodeId, open: seq<bool>, cap: nat)
    requires Readings(g, src, open) && CostsAtMost(g, cap) && 999_999 <= cap && |g| * cap < 0xFFFF_FFFF
    ensures LinksFit(EffectiveGraph(g, src, open), src)
  {
    var eff: Graph := EffectiveGraph(g, src, open);
    assert eff.Keys == g.Keys;
    assert |eff| == |eff.Keys| == |g.Keys| == |g|;
    forall u, e: Edge | u in eff && e in eff[u]
      ensures e.1 <= cap
    {
      if u == src {
        var i :| 0 <= i < |eff[u]| && eff[u][i] == e;
        assert g[u][i] in g[u];
      }
    }
    SmallCostsFitIn(eff, src, cap);
  }
}
