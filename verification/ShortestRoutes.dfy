/** What a finished search means: its labels are shortest distances and its tree leads along shortest walks. */
module ShortestRoutes {
  import opened Paths
  import opened Search

  /** Nodes outside the graph that a link followed from `src` names. */
  ghost predicate Dangling(g: Graph, src: NodeId, v: NodeId) {
    v !in g && exists p :: IsWalk(g, src, p, v)
  }

  /** `hop` is another node, the far end of a link of `src` that starts a walk of weight `d` to `dest`, shortest from
      `hop` on. */
  ghost predicate StartsShortest(g: Graph, src: NodeId, dest: NodeId, hop: NodeId, d: nat) {
    src in g && hop != src && exists e :: e in g[src] && e.0 == hop && e.1 <= d && Shortest(g, hop, dest, d - e.1)
  }

  /** Where a node stands in the expansion order: the measure of the parent walk. */
  function IndexOf(order: seq<NodeId>, v: NodeId): (i: nat)
    requires v in order
    ensures i < |order| && order[i] == v
  {
    if order[0] == v then 0 else 1 + IndexOf(order[1..], v)
  }

  /** The parent of `v` was expanded before `v` and has the link that gave `v` its label. */
  ghost predicate TreeLink(g: Graph, dist: Labels, parent: Parents, order: seq<NodeId>, v: NodeId)
    requires g.Keys <= dist.Keys && v in parent
  {
    && v in order && parent[v] in order
    && IndexOf(order, parent[v]) < IndexOf(order, v)
    && Linked(g, dist, parent, v)
  }

  /** `v` is outside the graph and a link of a reached node names it. */
  ghost predicate NamedOutside(g: Graph, dist: Labels, v: NodeId)
    requires g.Keys <= dist.Keys
  {
    v !in g && exists u, e: Edge :: u in g && dist[u] < UNREACHED && e in g[u] && e.0 == v
  }

  /** What the search has established when its heap runs empty. */
  ghost predicate Solved(g: Graph, src: NodeId, dist: Labels, parent: Parents, order: seq<NodeId>) {
    && src in g && g.Keys <= dist.Keys && dist[src] == 0 && Stable(g, UNREACHED, dist)
    && (forall v :: v in g ==> dist[v] <= UNREACHED)
    && (forall v :: v in parent <==> v in g && v != src && dist[v] < UNREACHED)
    && (forall v :: v in parent ==> TreeLink(g, dist, parent, order, v))
    && (forall v :: v in dist && v !in g ==> dist[v] == 0)
    && (forall v :: v !in g ==> (v in dist <==> NamedOutside(g, dist, v)))
  }

  lemma ReachedIsExpanded(g: Graph, src: NodeId, dist: Labels, order: seq<NodeId>, k: nat)
    requires OrderOk(g, src, order, k) && LabelsOk(g, src, dist, order, k) && HeapOk(g, dist, multiset{}, order)
    ensures src in order && forall v :: v in g ==> (v in order <==> dist[v] < UNREACHED)
  {
    assert src in order;
  }

  lemma ExpandedIsSeen(g: Graph, src: NodeId, order: seq<NodeId>, k: nat)
    requires OrderOk(g, src, order, k) && AllSeen(g, order, k)
    ensures forall u, e: Edge :: u in order && u in g && e in g[u] ==> Seen(g, order, k, u, e)
  {
    if order != [] {
      var last := g[order[|order| - 1]];
      assert last[..|last|] == last;
    }
  }

  lemma SolvedLabels(g: Graph, src: NodeId, dist: Labels, order: seq<NodeId>, k: nat)
    requires OrderOk(g, src, order, k) && LabelsOk(g, src, dist, order, k)
    requires forall v :: v in g ==> (v in order <==> dist[v] < UNREACHED)
    requires forall u, e: Edge :: u in order && u in g && e in g[u] ==> Seen(g, order, k, u, e)
    ensures Stable(g, UNREACHED, dist)
    ensures forall v :: v !in g ==> (v in dist <==> NamedOutside(g, dist, v))
  {
    forall u, i | u in g && 0 <= i < |g[u]| && g[u][i].0 in g && dist[u] < UNREACHED
      ensures dist[g[u][i].0] < UNREACHED && dist[g[u][i].0] <= dist[u] + g[u][i].1
    {
      assert Seen(g, order, k, u, g[u][i]);
    }
    forall v | v !in g
      ensures v in dist <==> NamedOutside(g, dist, v)
    {
      if v in dist {
        var u, e: Edge :| Seen(g, order, k, u, e) && e.0 == v;
      }
      if NamedOutside(g, dist, v) {
        var u, e: Edge :| u in g && dist[u] < UNREACHED && e in g[u] && e.0 == v;
        assert Seen(g, order, k, u, e);
      }
    }
  }

  lemma SolvedTree(g: Graph, src: NodeId, dist: Labels, parent: Parents, order: seq<NodeId>, v: NodeId)
    requires g.Keys <= dist.Keys && TreeOk(g, src, dist, parent, order) && v in parent && v in order
    requires forall i, j :: 0 <= i < j < |order| ==> order[i] != order[j]
    ensures TreeLink(g, dist, parent, order, v)
  {
    hide Linked;
    assert parent[v] in order && Linked(g, dist, parent, v);
    var i, j := IndexOf(order, parent[v]), IndexOf(order, v);
    assert order[j] in parent && parent[order[j]] == order[i];
  }

  /** A search whose heap has run empty, every link of every expanded node looked at, is solved. */
  lemma EmptyHeapSolves(g: Graph, src: NodeId, dist: Labels, parent: Parents, order: seq<NodeId>, k: nat)
    requires Inv(g, src, dist, parent, multiset{}, order, k) && AllSeen(g, order, k)
    ensures Solved(g, src, dist, parent, order) && order != []
  {
    ReachedIsExpanded(g, src, dist, order, k);
    ExpandedIsSeen(g, src, order, k);
    hide Seen, AllSeen, Stable, NamedOutside, TreeLink, HeapOk;
    SolvedLabels(g, src, dist, order, k);
    forall v | v in parent
      ensures TreeLink(g, dist, parent, order, v)
    {
      SolvedTree(g, src, dist, parent, order, v);
    }
  }

  /** Labels with parents expanded earlier, back to the source. */
  ghost predicate IsTree(g: Graph, src: NodeId, dist: Labels, parent: Parents, order: seq<NodeId>) {
    && src in g && g.Keys <= dist.Keys && dist[src] == 0
    && (forall v :: v in g && v != src && dist[v] < UNREACHED ==> v in parent)
    && (forall v :: v in parent ==> ParentLink(g, dist, parent, order, v))
  }

  ghost predicate ParentLink(g: Graph, dist: Labels, parent: Parents, order: seq<NodeId>, v: NodeId)
    requires g.Keys <= dist.Keys && v in parent
  {
    && parent[v] in order && Linked(g, dist, parent, v)
    && (v in order ==> IndexOf(order, parent[v]) < IndexOf(order, v))
  }

  /** The search tree holds a walk of the labelled weight to every labelled node. */
  lemma {:induction false} WalkInTree(g: Graph, src: NodeId, dist: Labels, parent: Parents, order: seq<NodeId>,
                                      v: NodeId)
    requires IsTree(g, src, dist, parent, order) && v in g && dist[v] < UNREACHED
    ensures exists p :: IsWalk(g, src, p, v) && Weight(p) == dist[v]
    decreases if v in order then IndexOf(order, v) else |order|
  {
    if v == src {
      assert IsWalk(g, src, [], v) && Weight([]) == 0;
    } else {
      hide IndexOf;
      assert ParentLink(g, dist, parent, order, v);
      var u := parent[v];
      WalkInTree(g, src, dist, parent, order, u);
      var p :| IsWalk(g, src, p, u) && Weight(p) == dist[u];
      WalkSnoc(g, src, p, u, (v, dist[v] - dist[u]));
    }
  }

  lemma WalkToReached(g: Graph, src: NodeId, dist: Labels, parent: Parents, order: seq<NodeId>, v: NodeId)
    requires Solved(g, src, dist, parent, order) && v in g && dist[v] < UNREACHED
    ensures exists p :: IsWalk(g, src, p, v) && Weight(p) == dist[v]
  {
    hide Stable, NamedOutside, Linked, IndexOf;
    forall x | x in parent
      ensures ParentLink(g, dist, parent, order, x)
    {
      assert TreeLink(g, dist, parent, order, x);
    }
    WalkInTree(g, src, dist, parent, order, v);
  }

  lemma SearchIsTree(g: Graph, src: NodeId, dist: Labels, parent: Parents, heap: Heap, order: seq<NodeId>, k: nat)
    requires Inv(g, src, dist, parent, heap, order, k)
    ensures IsTree(g, src, dist, parent, order)
  {
    hide Seen, Linked, HeapOk;
    forall v | v in parent
      ensures ParentLink(g, dist, parent, order, v)
    {
      assert parent[v] in order && Linked(g, dist, parent, v);
      if v in order {
        SolvedTree(g, src, dist, parent, order, v);
      }
    }
  }

  /** A walk that leaves the expanded nodes weighs at least as much as the cheapest label outside them. */
  lemma {:induction false} EscapeBound(g: Graph, src: NodeId, dist: Labels, order: seq<NodeId>, k: nat, d: nat,
                                       a: NodeId, p: seq<Edge>, b: NodeId)
    requires OrderOk(g, src, order, k) && LabelsOk(g, src, dist, order, k)
    requires forall u, e: Edge :: u in order && u in g && e in g[u] ==> Seen(g, order, k, u, e)
    requires forall v :: v in g && v !in order && dist[v] < UNREACHED ==> d <= dist[v]
    requires a in order && a in g && b in g && b !in order && IsWalk(g, a, p, b)
    ensures d <= dist[a] + Weight(p)
    decreases p
  {
    var e := p[0];
    assert Seen(g, order, k, a, e);
    hide Seen;
    if e.0 in order {
      EscapeBound(g, src, dist, order, k, d, e.0, p[1..], b);
    } else {
      assert e.0 in g;
    }
  }

  /** A current least entry carries the shortest distance of its node: labels are final when they are expanded. */
  lemma ExpandedIsShortest(g: Graph, src: NodeId, dist: Labels, parent: Parents, heap: Heap, order: seq<NodeId>, k: nat,
                           e: HeapEntry)
    requires Inv(g, src, dist, parent, heap, order, k) && AllSeen(g, order, k)
    requires IsLeast(e, heap) && e.1 in dist && e.0 <= dist[e.1]
    ensures Shortest(g, src, e.1, e.0)
  {
    LeastIsNew(g, src, dist, parent, heap, order, k, e);
    SearchIsTree(g, src, dist, parent, heap, order, k);
    WalkInTree(g, src, dist, parent, order, e.1);
    ExpandedIsSeen(g, src, order, k);
    LeastBoundsLabels(g, dist, heap, order, e);
    hide Seen, AllSeen, IsTree, HeapOk, TreeOk, IsLeast;
    forall p | IsWalk(g, src, p, e.1)
      ensures e.0 <= Weight(p)
    {
      if order != [] {
        EscapeBound(g, src, dist, order, k, e.0, src, p, e.1);
      }
    }
  }

  lemma LeastBoundsLabels(g: Graph, dist: Labels, heap: Heap, order: seq<NodeId>, e: HeapEntry)
    requires g.Keys <= dist.Keys && forall i :: 0 <= i < |order| ==> order[i] in g
    requires HeapOk(g, dist, heap, order) && IsLeast(e, heap)
    ensures forall v :: v in g && v !in order && dist[v] < UNREACHED ==> e.0 <= dist[v]
  {
    forall v | v in g && v !in order && dist[v] < UNREACHED
      ensures e.0 <= dist[v]
    {
      assert heap[(dist[v], v)] == 1;
      assert Before(e, (dist[v], v));
    }
  }

  /** Labels of graph nodes are their shortest distances; a node left unreached has no walk to it. */
  lemma LabelsAreShortest(g: Graph, src: NodeId, dist: Labels, parent: Parents, order: seq<NodeId>, v: NodeId)
    requires Solved(g, src, dist, parent, order) && v in g
    ensures dist[v] < UNREACHED ==> Shortest(g, src, v, dist[v])
    ensures dist[v] == UNREACHED ==> forall p :: !IsWalk(g, src, p, v)
  {
    forall p | IsWalk(g, src, p, v)
      ensures dist[v] < UNREACHED && dist[v] <= Weight(p)
    {
      StableBound(g, UNREACHED, dist, src, p, v);
    }
    if dist[v] < UNREACHED {
      WalkToReached(g, src, dist, parent, order, v);
    }
  }

  /** The labelled nodes outside the graph are exactly the dangling ones. */
  lemma LabelledOutside(g: Graph, src: NodeId, dist: Labels, parent: Parents, order: seq<NodeId>, v: NodeId)
    requires Solved(g, src, dist, parent, order) && v !in g
    ensures v in dist <==> Dangling(g, src, v)
  {
    if NamedOutside(g, dist, v) {
      var u, e: Edge :| u in g && dist[u] < UNREACHED && e in g[u] && e.0 == v;
      WalkToReached(g, src, dist, parent, order, u);
      var p :| IsWalk(g, src, p, u) && Weight(p) == dist[u];
      WalkSnoc(g, src, p, u, e);
    }
    if Dangling(g, src, v) {
      var p :| IsWalk(g, src, p, v);
      WalkOutIsNamed(g, dist, src, p, v);
    }
  }

  lemma {:induction false} WalkOutIsNamed(g: Graph, dist: Labels, a: NodeId, p: seq<Edge>, v: NodeId)
    requires Stable(g, UNREACHED, dist) && a in g && dist[a] < UNREACHED && v !in g && IsWalk(g, a, p, v)
    ensures NamedOutside(g, dist, v)
    decreases p
  {
    var i :| 0 <= i < |g[a]| && g[a][i] == p[0];
    if p[0].0 in g {
      WalkOutIsNamed(g, dist, p[0].0, p[1..], v);
    } else {
      assert p[1..] == [];
    }
  }

  /** `q` leads from `current` to `dest` along the search tree. */
  ghost predicate OnTree(g: Graph, dist: Labels, parent: Parents, current: NodeId, q: seq<Edge>, dest: NodeId)
    requires g.Keys <= dist.Keys
  {
    current in parent && current in g && dest in g && IsWalk(g, current, q, dest) &&
      dist[dest] == dist[current] + Weight(q)
  }

  /** One step of the parent walk stays on the tree and goes back in the expansion order. */
  lemma ClimbTree(g: Graph, src: NodeId, dist: Labels, parent: Parents, order: seq<NodeId>, current: NodeId,
                  q: seq<Edge>, dest: NodeId)
    requires Solved(g, src, dist, parent, order) && OnTree(g, dist, parent, current, q, dest)
    requires parent[current] != src
    ensures TreeLink(g, dist, parent, order, current)
    ensures var u := parent[current];
      u in g && dist[u] <= dist[current] && OnTree(g, dist, parent, u, [(current, dist[current] - dist[u])] + q, dest)
  {
    hide Stable, NamedOutside, IndexOf;
    var u := parent[current];
    assert TreeLink(g, dist, parent, order, current);
    WalkCons(g, u, (current, dist[current] - dist[u]), q, dest);
  }

  /** The child of the source at which the parent walk stops starts a shortest walk. */
  lemma TopOfTree(g: Graph, src: NodeId, dist: Labels, parent: Parents, order: seq<NodeId>, current: NodeId,
                  q: seq<Edge>, dest: NodeId)
    requires Solved(g, src, dist, parent, order) && OnTree(g, dist, parent, current, q, dest)
    requires parent[current] == src
    ensures StartsShortest(g, src, dest, current, dist[dest])
  {
    hide NamedOutside, IndexOf;
    assert TreeLink(g, dist, parent, order, current);
    var e: Edge := (current, dist[current]);
    forall p | IsWalk(g, current, p, dest)
      ensures Weight(q) <= Weight(p)
    {
      StableBound(g, UNREACHED, dist, current, p, dest);
    }
    assert Shortest(g, current, dest, dist[dest] - e.1);
  }
}
