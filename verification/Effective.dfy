/** The graph a run of `compute_routes` works on: the links of the source whose breaker is read as Open
    cost 999999, all others cost what the topology says. */
module Effective {
  import opened Paths
  import opened ShortestRoutes

  /** The cost of a failed link, and the bound no route reaches. */
  const FAILED_COST: nat := 999_999

  /** `open[i]` says whether the breaker of the source's link `i` was read as Open. */
  function Inflate(links: seq<Edge>, open: seq<bool>): (r: seq<Edge>)
    requires |open| == |links|
    ensures |r| == |links|
    ensures forall i :: 0 <= i < |links| ==> r[i] == (links[i].0, if open[i] then FAILED_COST else links[i].1)
  {
    seq(|links|, i requires 0 <= i < |links| => (links[i].0, if open[i] then FAILED_COST else links[i].1))
  }

  /** The links whose breaker was not read as Open. */
  function Working(links: seq<Edge>, open: seq<bool>): seq<Edge>
    requires |open| == |links|
  {
    if links == [] then []
    else (if open[0] then [] else [links[0]]) + Working(links[1..], open[1..])
  }

  ghost predicate Readings(g: Graph, src: NodeId, open: seq<bool>) {
    src in g ==> |open| == |g[src]|
  }

  ghost function EffectiveGraph(g: Graph, src: NodeId, open: seq<bool>): Graph
    requires Readings(g, src, open)
  {
    if src in g then g[src := Inflate(g[src], open)] else g
  }

  /** The topology without the source's links that were read as Open. */
  ghost function WorkingGraph(g: Graph, src: NodeId, open: seq<bool>): Graph
    requires Readings(g, src, open)
  {
    if src in g then g[src := Working(g[src], open)] else g
  }

  lemma {:induction false} WorkingLinks(links: seq<Edge>, open: seq<bool>, e: Edge)
    requires |open| == |links|
    ensures e in Working(links, open) <==> exists i :: 0 <= i < |links| && links[i] == e && !open[i]
  {
    if links != [] {
      WorkingLinks(links[1..], open[1..], e);
      if i :| 0 <= i < |links| && links[i] == e && !open[i] {
        if i > 0 {
          assert links[1..][i - 1] == e && !open[1..][i - 1];
        }
      }
      if i :| 0 <= i < |links[1..]| && links[1..][i] == e && !open[1..][i] {
        assert links[i + 1] == e && !open[i + 1];
      }
    }
  }

  lemma {:induction false} WorkingWalkIsEffective(g: Graph, src: NodeId, open: seq<bool>, a: NodeId, p: seq<Edge>,
                                                  b: NodeId)
    requires Readings(g, src, open) && IsWalk(WorkingGraph(g, src, open), a, p, b)
    ensures IsWalk(EffectiveGraph(g, src, open), a, p, b)
    decreases p
  {
    if p != [] {
      WorkingWalkIsEffective(g, src, open, p[0].0, p[1..], b);
      if a == src {
        WorkingLinks(g[src], open, p[0]);
        var i :| 0 <= i < |g[src]| && g[src][i] == p[0] && !open[i];
        assert EffectiveGraph(g, src, open)[src][i] == p[0];
      }
    }
  }

  lemma {:induction false} CheapWalkIsWorking(g: Graph, src: NodeId, open: seq<bool>, a: NodeId, p: seq<Edge>,
                                              b: NodeId)
    requires Readings(g, src, open) && IsWalk(EffectiveGraph(g, src, open), a, p, b) && Weight(p) < FAILED_COST
    ensures IsWalk(WorkingGraph(g, src, open), a, p, b)
    decreases p
  {
    if p != [] {
      CheapWalkIsWorking(g, src, open, p[0].0, p[1..], b);
      if a == src {
        var i :| 0 <= i < |g[src]| && EffectiveGraph(g, src, open)[src][i] == p[0];
        WorkingLinks(g[src], open, p[0]);
        assert g[src][i] == p[0] && !open[i];
      }
    }
  }

  /** Below the failure cost, shortest distances on the effective graph are those of the topology without the
      links read as Open: inflating their cost is the same as taking them out. */
  lemma InflatingIsRemoving(g: Graph, src: NodeId, open: seq<bool>, a: NodeId, b: NodeId, d: nat)
    requires Readings(g, src, open) && d < FAILED_COST
    ensures Shortest(EffectiveGraph(g, src, open), a, b, d) <==> Shortest(WorkingGraph(g, src, open), a, b, d)
  {
    var eff, work := EffectiveGraph(g, src, open), WorkingGraph(g, src, open);
    hide EffectiveGraph, WorkingGraph;
    forall p | IsWalk(work, a, p, b)
      ensures IsWalk(eff, a, p, b)
    {
      WorkingWalkIsEffective(g, src, open, a, p, b);
    }
    forall p | IsWalk(eff, a, p, b) && Weight(p) < FAILED_COST
      ensures IsWalk(work, a, p, b)
    {
      CheapWalkIsWorking(g, src, open, a, p, b);
    }
  }

  /** Some link from `src` to `hop` was not read as Open. */
  ghost predicate HasWorkingLink(g: Graph, src: NodeId, open: seq<bool>, hop: NodeId)
    requires Readings(g, src, open) && src in g
  {
    exists i :: 0 <= i < |g[src]| && g[src][i].0 == hop && !open[i]
  }

  /** A route cheaper than the failure cost starts over a link that was not read as Open. */
  lemma NoRouteOverOpenLink(g: Graph, src: NodeId, open: seq<bool>, dest: NodeId, hop: NodeId, d: nat)
    requires Readings(g, src, open) && src in g && d < FAILED_COST
    requires StartsShortest(EffectiveGraph(g, src, open), src, dest, hop, d)
    ensures HasWorkingLink(g, src, open, hop)
  {
    var links := EffectiveGraph(g, src, open)[src];
    var e :| e in links && e.0 == hop && e.1 <= d;
    var i :| 0 <= i < |links| && links[i] == e;
  }

  lemma ClosedStaysClosed(g: Graph, src: NodeId, open: seq<bool>)
    requires Readings(g, src, open)
    ensures SelfContained(g) <==> SelfContained(EffectiveGraph(g, src, open))
  {
    var eff: Graph := EffectiveGraph(g, src, open);
    if SelfContained(g) {
      forall u, i | u in eff && 0 <= i < |eff[u]|
        ensures eff[u][i].0 in eff
      {
        assert g[u][i].0 in g;
      }
    }
    if SelfContained(eff) {
      forall u, i | u in g && 0 <= i < |g[u]|
        ensures g[u][i].0 in g
      {
        assert eff[u][i].0 in eff;
      }
    }
  }

  /** With no breaker Open the run works on the topology itself. */
  lemma NothingOpen(g: Graph, src: NodeId, open: seq<bool>)
    requires Readings(g, src, open) && forall i :: 0 <= i < |open| ==> !open[i]
    ensures EffectiveGraph(g, src, open) == g
  {
    if src in g {
      assert Inflate(g[src], open) == g[src];
    }
  }
}
