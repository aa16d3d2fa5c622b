/** Why route computation needs its sums to fit: a three-node graph on which a sum wraps around 32 bits, and the search
    ends with two nodes that are each other's parent. */
module Overflow {
  import opened Bits
  import opened Paths
  import opened Search
  import opened CostBounds

  /** Three nodes with one link each; the link from 1 to 2 costs the largest 32-bit value. */
  ghost predicate Triangle(g: Graph) {
    g.Keys == {0, 1, 2} && g[0] == [(1, 1)] && g[1] == [(2, UNREACHED)] && g[2] == [(1, 0)]
  }

  /** The labels of the three nodes. */
  function Labelled(one: nat, two: nat): Labels {
    map[0 := 0, 1 := one, 2 := two]
  }

  function LabelOf(one: nat, two: nat, v: NodeId): nat {
    if v == 0 then 0 else if v == 1 then one else two
  }

  /** The work of a search that has these labels, these parents and a single heap entry. */
  ghost predicate At(g: Graph, run: seq<Work>, one: nat, two: nat, parent: Parents, u: NodeId, d: nat) {
    IsSearch(g, 0, run) && run[|run| - 1] == Work(Labelled(one, two), parent, multiset{(d, u)})
  }

  /** A round that finds one entry in the heap, for a node with one link. */
  lemma OnlyEntry(g: Graph, run: seq<Work>, one: nat, two: nat, parent: Parents, u: NodeId, d: nat, e: Edge)
    returns (longer: seq<Work>)
    requires At(g, run, one, two, parent, u, d) && u <= 2 && d == LabelOf(one, two, u) && u in g && g[u] == [e]
    ensures IsSearch(g, 0, longer)
    ensures longer[|longer| - 1] == Relax(Work(Labelled(one, two), parent, multiset{}), u, d, e)
  {
    hide IsSearch, Relax;
    var w := run[|run| - 1];
    assert IsLeast((d, u), w.heap);
    var rest := w.(heap := multiset{});
    assert w.heap - multiset{(d, u)} == rest.heap;
    assert RelaxFirst(rest, u, d, g[u], 0) == rest;
    longer := NextRound(g, 0, run, (d, u));
  }

  lemma Improved(one: nat, two: nat, parent: Parents, u: NodeId, d: nat, v: NodeId, cost: nat, sum: nat)
    requires 1 <= v <= 2 && sum == (d + cost) % WORD32 && sum < LabelOf(one, two, v)
    ensures Relax(Work(Labelled(one, two), parent, multiset{}), u, d, (v, cost)) ==
      Work(if v == 1 then Labelled(sum, two) else Labelled(one, sum), parent[v := u], multiset{(sum, v)})
  {
    var empty: Heap := multiset{};
    assert empty + multiset{(sum, v)} == multiset{(sum, v)};
    assert Labelled(one, two)[v := sum] == if v == 1 then Labelled(sum, two) else Labelled(one, sum);
  }

  /** A round that improves the one link there is. */
  lemma Improves(g: Graph, run: seq<Work>, one: nat, two: nat, parent: Parents, u: NodeId, d: nat, v: NodeId,
                 cost: nat, sum: nat)
    returns (longer: seq<Work>)
    requires At(g, run, one, two, parent, u, d) && u <= 2 && d == LabelOf(one, two, u) && u in g && g[u] == [(v, cost)]
    requires 1 <= v <= 2 && sum == (d + cost) % WORD32 && sum < LabelOf(one, two, v)
    ensures At(g, longer, if v == 1 then sum else one, if v == 2 then sum else two, parent[v := u], v, sum)
  {
    longer := OnlyEntry(g, run, one, two, parent, u, d, (v, cost));
    Improved(one, two, parent, u, d, v, cost, sum);
  }

  lemma Begins(g: Graph) returns (run: seq<Work>)
    requires Triangle(g)
    ensures At(g, run, UNREACHED, UNREACHED, map[], 0, 0)
  {
    run := StartOfSearch(g, 0);
    assert StartWork(g, 0).dist == Labelled(UNREACHED, UNREACHED);
  }

  /** The search on this graph ends after four rounds. */
  lemma SearchMakesCycle(g: Graph) returns (parent: Parents)
    requires Triangle(g)
    ensures EndsWith(g, 0, Labelled(0, 0), parent) && parent == map[1 := 2, 2 := 1]
  {
    hide IsSearch, At, Relax;
    var run := Begins(g);
    run := Improves(g, run, UNREACHED, UNREACHED, map[], 0, 0, 1, 1, 1);
    run := Improves(g, run, 1, UNREACHED, map[][1 := 0], 1, 1, 2, UNREACHED, 0);
    run := Improves(g, run, 1, 0, map[][1 := 0][2 := 1], 2, 0, 1, 0, 0);
    parent := map[][1 := 0][2 := 1][1 := 2];
    Ends(g, run, parent);
    assert parent == map[1 := 2, 2 := 1];
  }

  lemma Ends(g: Graph, run: seq<Work>, parent: Parents)
    requires Triangle(g) && At(g, run, 0, 0, parent, 1, 0)
    ensures EndsWith(g, 0, Labelled(0, 0), parent)
  {
    var end := OnlyEntry(g, run, 0, 0, parent, 1, 0, (2, UNREACHED));
    assert end[|end| - 1] == Work(Labelled(0, 0), parent, multiset{});
  }

  /** Where the parent walk stands after `n` steps, if it goes that far. */
  function Climbed(parent: Parents, v: NodeId, n: nat): NodeId {
    if n == 0 then v
    else var u := Climbed(parent, v, n - 1); if u in parent then parent[u] else u
  }

  /** The parent walk from `v` never stops: it never stands at the source or at a child of it. */
  ghost predicate NeverStops(parent: Parents, src: NodeId, v: NodeId) {
    forall n: nat :: Climbed(parent, v, n) in parent && parent[Climbed(parent, v, n)] != src
  }

  lemma {:induction false} StaysOnCycle(parent: Parents, n: nat)
    requires parent == map[1 := 2, 2 := 1]
    ensures Climbed(parent, 1, n) in {1, 2}
  {
    if n > 0 {
      StaysOnCycle(parent, n - 1);
    }
  }

  lemma OneAwayIsShortest(g: Graph)
    requires Triangle(g)
    ensures Shortest(g, 0, 1, 1)
  {
    var e: Edge := (1, 1);
    assert IsWalk(g, 1, [], 1) && Weight([]) == 0;
    assert e in g[0];
    WalkCons(g, 0, e, [], 1);
    forall p | IsWalk(g, 0, p, 1)
      ensures 1 <= Weight(p)
    {
      assert p[0] in g[0];
    }
  }

  /** Shortest routes and the end of the parent walk are lost when a sum wraps: the search ends with label 0 for node 1,
      whose shortest distance is 1, and with parents along which the walk from node 1 never stops. */
  lemma WrappingLosesRoutes(g: Graph)
    requires Triangle(g)
    ensures exists dist, parent :: EndsWith(g, 0, dist, parent) && 1 in dist && dist[1] == 0 && NeverStops(parent, 0, 1)
    ensures Shortest(g, 0, 1, 1) && !LinksFit(g, 0)
  {
    var parent := SearchMakesCycle(g);
    assert NeverStops(parent, 0, 1) by {
      forall n: nat
        ensures Climbed(parent, 1, n) in parent && parent[Climbed(parent, 1, n)] != 0
      {
        StaysOnCycle(parent, n);
      }
    }
    OneAwayIsShortest(g);
    var far: Edge := (2, UNREACHED);
    assert far in g[1];
  }
}
