/** The state of the lazy-deletion Dijkstra search of `compute_routes` and what each of its steps keeps.

    Ghost state beside the program's own three variables: `order` lists the expanded nodes, the last of
    which has had its first `k` links looked at. */
module Search {
  import opened Bits
  import opened Paths

  /** The largest 32-bit unsigned value, which marks an unreached node. */
  const UNREACHED: nat := 0xFFFF_FFFF

  type Labels = map<NodeId, nat>
  type Parents = map<NodeId, NodeId>
  type HeapEntry = (nat, NodeId)
  type Heap = multiset<HeapEntry>

  /** The order of the priority queue: cost first, then node number. */
  predicate Before(a: HeapEntry, b: HeapEntry) {
    a.0 < b.0 || (a.0 == b.0 && a.1 <= b.1)
  }

  /** The three variables of the search. */
  datatype Work = Work(dist: Labels, parent: Parents, heap: Heap)

  /** One link `e` of `u`, which is expanded at distance `d`: the sum is reduced to 32 bits, and a target without a
      label gets label 0. */
  function Relax(w: Work, u: NodeId, d: nat, e: Edge): Work {
    var v, newDist := e.0, (d + e.1) % WORD32;
    if v !in w.dist then w.(dist := w.dist[v := 0])
    else if newDist < w.dist[v] then
      Work(w.dist[v := newDist], w.parent[v := u], w.heap + multiset{(newDist, v)})
    else w
  }

  /** The first `k` links of `u`, one after the other. */
  function RelaxFirst(w: Work, u: NodeId, d: nat, links: seq<Edge>, k: nat): Work
    requires k <= |links|
  {
    if k == 0 then w else Relax(RelaxFirst(w, u, d, links, k - 1), u, d, links[k - 1])
  }

  /** Link `e` of the expanded node `u` has been looked at. */
  ghost predicate Seen(g: Graph, order: seq<NodeId>, k: nat, u: NodeId, e: Edge) {
    && u in order && u in g && e in g[u]
    && (u == order[|order| - 1] ==> k <= |g[u]| && e in g[u][..k])
  }

  ghost predicate OrderOk(g: Graph, src: NodeId, order: seq<NodeId>, k: nat) {
    && src in g
    && (forall i :: 0 <= i < |order| ==> order[i] in g)
    && (forall i, j :: 0 <= i < j < |order| ==> order[i] != order[j])
    && (order != [] ==> order[0] == src && k <= |g[order[|order| - 1]]|)
  }

  ghost predicate LabelsOk(g: Graph, src: NodeId, dist: Labels, order: seq<NodeId>, k: nat)
    requires OrderOk(g, src, order, k)
  {
    && g.Keys <= dist.Keys
    && dist[src] == 0
    && (forall v :: v in g ==> dist[v] <= UNREACHED)
    && (forall v :: v in dist && v !in g ==>
          dist[v] == 0 && exists u, e: Edge :: Seen(g, order, k, u, e) && e.0 == v)
    && (forall i :: 0 <= i < |order| ==> dist[order[i]] < UNREACHED)
    && (forall i, j :: 0 <= i < j < |order| ==> dist[order[i]] <= dist[order[j]])
    && (forall u, e: Edge :: Seen(g, order, k, u, e) ==>
          e.0 in dist && (e.0 in g ==> dist[e.0] < UNREACHED && dist[e.0] <= dist[u] + e.1))
  }

  /** The parent's label and a link from the parent make up the label of `v`. */
  ghost predicate Linked(g: Graph, dist: Labels, parent: Parents, v: NodeId)
    requires g.Keys <= dist.Keys && v in parent
  {
    && v in g && parent[v] in g
    && dist[parent[v]] <= dist[v]
    && (v, dist[v] - dist[parent[v]]) in g[parent[v]]
  }

  /** Parents are expanded nodes, expanded before their children; every labelled node but the source has one. */
  ghost predicate TreeOk(g: Graph, src: NodeId, dist: Labels, parent: Parents, order: seq<NodeId>)
    requires g.Keys <= dist.Keys
  {
    && (forall v :: v in parent <==> v in g && v != src && dist[v] < UNREACHED)
    && (forall v :: v in parent ==> parent[v] in order && Linked(g, dist, parent, v))
    && (forall i, j ::
          0 <= i < |order| && 0 <= j < |order| && order[j] in parent && parent[order[j]] == order[i] ==> i < j)
  }

  ghost predicate HeapOk(g: Graph, dist: Labels, heap: Heap, order: seq<NodeId>)
    requires g.Keys <= dist.Keys
    requires forall i :: 0 <= i < |order| ==> order[i] in g
  {
    && (forall e :: e in heap ==> e.1 in g && dist[e.1] <= e.0 < UNREACHED && (e.1 in order ==> dist[e.1] < e.0))
    && (forall e, i :: e in heap && 0 <= i < |order| ==> dist[order[i]] <= e.0)
    && (forall v :: v in g && v !in order && dist[v] < UNREACHED ==> heap[(dist[v], v)] == 1)
  }

  ghost predicate Inv(g: Graph, src: NodeId, dist: Labels, parent: Parents, heap: Heap, order: seq<NodeId>, k: nat) {
    && OrderOk(g, src, order, k)
    && LabelsOk(g, src, dist, order, k)
    && TreeOk(g, src, dist, parent, order)
    && HeapOk(g, dist, heap, order)
  }

  /** Every link of the last expanded node has been looked at. */
  ghost predicate AllSeen(g: Graph, order: seq<NodeId>, k: nat) {
    order != [] ==> order[|order| - 1] in g && k == |g[order[|order| - 1]]|
  }

  predicate IsLeast(e: HeapEntry, heap: Heap) {
    e in heap && forall f :: f in heap ==> Before(e, f)
  }

  /** The search before its first round. */
  function StartWork(g: Graph, src: NodeId): Work {
    Work((map v | v in g :: UNREACHED)[src := 0], map[], multiset{(0, src)})
  }

  /** The work after a round that takes `top` off the heap: nothing more if it is stale, otherwise all links of its
      node are relaxed. */
  function AfterTop(g: Graph, w: Work, top: HeapEntry): Work
    requires top.1 in w.dist
  {
    var rest := w.(heap := w.heap - multiset{top});
    if top.0 > w.dist[top.1] || top.1 !in g then rest
    else RelaxFirst(rest, top.1, top.0, g[top.1], |g[top.1]|)
  }

  /** One round of the search takes a least entry. */
  ghost predicate Round(g: Graph, w: Work, w': Work) {
    exists top: HeapEntry :: IsLeast(top, w.heap) && top.1 in w.dist && w' == AfterTop(g, w, top)
  }

  /** The rounds of a search from its start. */
  ghost predicate IsSearch(g: Graph, src: NodeId, run: seq<Work>)
    ensures IsSearch(g, src, run) ==> run != []
  {
    run != [] && if |run| == 1 then run[0] == StartWork(g, src)
    else IsSearch(g, src, run[..|run| - 1]) && Round(g, run[|run| - 2], run[|run| - 1])
  }

  lemma StartOfSearch(g: Graph, src: NodeId) returns (run: seq<Work>)
    ensures IsSearch(g, src, run) && run[|run| - 1] == StartWork(g, src)
  {
    run := [StartWork(g, src)];
  }

  lemma NextRound(g: Graph, src: NodeId, run: seq<Work>, top: HeapEntry) returns (longer: seq<Work>)
    requires IsSearch(g, src, run) && IsLeast(top, run[|run| - 1].heap) && top.1 in run[|run| - 1].dist
    ensures IsSearch(g, src, longer) && longer[|longer| - 1] == AfterTop(g, run[|run| - 1], top)
  {
    var w' := AfterTop(g, run[|run| - 1], top);
    assert Round(g, run[|run| - 1], w');
    longer := run + [w'];
    assert longer[..|run|] == run;
  }

  /** The search can end with this work, its heap being empty. */
  ghost predicate EndsWith(g: Graph, src: NodeId, dist: Labels, parent: Parents) {
    exists run :: IsSearch(g, src, run) && run[|run| - 1] == Work(dist, parent, multiset{})
  }

  lemma {:induction false} LeastExists(heap: Heap)
    requires |heap| > 0
    ensures exists e :: IsLeast(e, heap)
  {
    var e :| e in heap;
    var rest := heap - multiset{e};
    if |rest| > 0 {
      LeastExists(rest);
      var m :| IsLeast(m, rest);
      LeastOfTwo(heap, e, m);
    } else {
      assert rest == multiset{};
      assert heap == multiset{e};
      assert IsLeast(e, heap);
    }
  }

  lemma LeastOfTwo(heap: Heap, e: HeapEntry, m: HeapEntry)
    requires e in heap && IsLeast(m, heap - multiset{e})
    ensures exists l :: IsLeast(l, heap)
  {
    var rest := heap - multiset{e};
    forall f | f in heap
      ensures Before(m, f) || f == e
    {
      assert f != e ==> rest[f] == heap[f];
    }
    var l := if Before(e, m) then e else m;
    assert IsLeast(l, heap);
  }

  lemma Start(g: Graph, src: NodeId, dist: Labels)
    requires src in g && dist.Keys == g.Keys && dist[src] == 0
    requires forall v :: v in g && v != src ==> dist[v] == UNREACHED
    ensures Inv(g, src, dist, map[], multiset{(0, src)}, [], 0) && AllSeen(g, [], 0)
  {
  }

  /** A stale entry is dropped. */
  lemma DropStale(g: Graph, src: NodeId, dist: Labels, parent: Parents, heap: Heap, order: seq<NodeId>, k: nat,
                  e: HeapEntry)
    requires Inv(g, src, dist, parent, heap, order, k) && e in heap && dist[e.1] < e.0
    ensures Inv(g, src, dist, parent, heap - multiset{e}, order, k)
  {
  }

  lemma SeenSnoc(g: Graph, order: seq<NodeId>, k: nat, u: NodeId)
    requires AllSeen(g, order, k) && u in g && u !in order
    ensures forall w, e: Edge :: Seen(g, order + [u], 0, w, e) <==> Seen(g, order, k, w, e)
  {
    if order != [] {
      var last := g[order[|order| - 1]];
      assert last[..|last|] == last;
    }
  }

  /** A current least entry names a node that was not expanded before; the first one is the source. */
  lemma LeastIsNew(g: Graph, src: NodeId, dist: Labels, parent: Parents, heap: Heap, order: seq<NodeId>, k: nat,
                   e: HeapEntry)
    requires Inv(g, src, dist, parent, heap, order, k)
    requires IsLeast(e, heap) && e.0 <= dist[e.1]
    ensures e.1 in g && e.1 !in order && e.0 == dist[e.1] && heap[e] == 1
    ensures order == [] <==> e.1 == src
  {
    if order == [] {
      assert e.1 !in parent;
    }
  }

  lemma ExpandLabels(g: Graph, src: NodeId, dist: Labels, order: seq<NodeId>, k: nat, u: NodeId)
    requires OrderOk(g, src, order, k) && LabelsOk(g, src, dist, order, k) && AllSeen(g, order, k)
    requires u in g && u !in order && dist[u] < UNREACHED && (order == [] ==> u == src)
    requires forall i :: 0 <= i < |order| ==> dist[order[i]] <= dist[u]
    ensures OrderOk(g, src, order + [u], 0) && LabelsOk(g, src, dist, order + [u], 0)
  {
    hide Seen;
    SeenSnoc(g, order, k, u);
    var order' := order + [u];
    forall v | v in dist && v !in g
      ensures exists w, e: Edge :: Seen(g, order', 0, w, e) && e.0 == v
    {
      var w, e :| Seen(g, order, k, w, e) && e.0 == v;
      assert Seen(g, order', 0, w, e);
    }
  }

  lemma ExpandHeap(g: Graph, dist: Labels, heap: Heap, order: seq<NodeId>, e: HeapEntry)
    requires g.Keys <= dist.Keys && forall i :: 0 <= i < |order| ==> order[i] in g
    requires HeapOk(g, dist, heap, order)
    requires IsLeast(e, heap) && e.0 == dist[e.1] && e.1 !in order
    ensures HeapOk(g, dist, heap - multiset{e}, order + [e.1])
  {
    var heap', order' := heap - multiset{e}, order + [e.1];
    assert heap[e] == 1;
    forall f | f in heap'
      ensures f in heap && f != e && (f.1 in order' ==> dist[f.1] < f.0)
    {
      assert heap'[f] <= heap[f];
    }
    forall v | v in g && v !in order' && dist[v] < UNREACHED
      ensures heap'[(dist[v], v)] == 1
    {
      assert v !in order && (dist[v], v) != e;
    }
  }

  lemma ExpandTree(g: Graph, src: NodeId, dist: Labels, parent: Parents, order: seq<NodeId>, u: NodeId)
    requires g.Keys <= dist.Keys && TreeOk(g, src, dist, parent, order) && u !in order
    ensures TreeOk(g, src, dist, parent, order + [u])
  {
    var order' := order + [u];
    forall v | v in parent
      ensures parent[v] in order' && parent[v] != u
    {
      assert parent[v] in order;
      assert order <= order';
    }
  }

  /** A current least entry expands its node. */
  lemma Expand(g: Graph, src: NodeId, dist: Labels, parent: Parents, heap: Heap, order: seq<NodeId>, k: nat,
               e: HeapEntry)
    requires Inv(g, src, dist, parent, heap, order, k) && AllSeen(g, order, k)
    requires IsLeast(e, heap) && e.0 <= dist[e.1]
    ensures Inv(g, src, dist, parent, heap - multiset{e}, order + [e.1], 0)
  {
    LeastIsNew(g, src, dist, parent, heap, order, k, e);
    ExpandLabels(g, src, dist, order, k, e.1);
    ExpandTree(g, src, dist, parent, order, e.1);
    ExpandHeap(g, dist, heap, order, e);
  }

  lemma SeenNext(g: Graph, order: seq<NodeId>, k: nat, k': nat)
    requires k' == k + 1
    requires order != [] && order[|order| - 1] in g && k < |g[order[|order| - 1]]|
    ensures forall u, e: Edge :: Seen(g, order, k', u, e) <==>
      Seen(g, order, k, u, e) || (u == order[|order| - 1] && e == g[u][k])
  {
    var links := g[order[|order| - 1]];
    assert links[..k'] == links[..k] + [links[k]];
  }

  lemma ImproveLabels(g: Graph, src: NodeId, dist: Labels, order: seq<NodeId>, k: nat, u: NodeId, v: NodeId, d: nat)
    requires OrderOk(g, src, order, k) && LabelsOk(g, src, dist, order, k)
    requires order != [] && u == order[|order| - 1] && k < |g[u]| && v == g[u][k].0
    requires v in g && v !in order && d == dist[u] + g[u][k].1 < dist[v]
    ensures OrderOk(g, src, order, k + 1) && LabelsOk(g, src, dist[v := d], order, k + 1)
  {
    var k' := k + 1;
    SeenNext(g, order, k, k');
    var dist' := dist[v := d];
    assert forall w :: w in order ==> dist'[w] == dist[w];
    forall w, e: Edge | Seen(g, order, k', w, e)
      ensures e.0 in dist' && (e.0 in g ==> dist'[e.0] < UNREACHED && dist'[e.0] <= dist'[w] + e.1)
    {
      assert Seen(g, order, k, w, e) || (w == u && e == g[u][k]);
    }
    forall x | x in dist' && x !in g
      ensures dist'[x] == 0 && exists w, e: Edge :: Seen(g, order, k', w, e) && e.0 == x
    {
      var w, e :| Seen(g, order, k, w, e) && e.0 == x;
      assert Seen(g, order, k', w, e);
    }
  }

  lemma ImproveTree(g: Graph, src: NodeId, dist: Labels, parent: Parents, order: seq<NodeId>, u: NodeId, v: NodeId,
                    d: nat)
    requires g.Keys <= dist.Keys && TreeOk(g, src, dist, parent, order)
    requires u in order && u in g && v in g && v !in order && v != src
    requires dist[u] <= d < dist[v] <= UNREACHED && (v, d - dist[u]) in g[u]
    ensures TreeOk(g, src, dist[v := d], parent[v := u], order)
  {
    var dist': Labels := dist[v := d];
    var parent': Parents := parent[v := u];
    forall x | x in parent'
      ensures parent'[x] in order && Linked(g, dist', parent', x)
    {
      if x != v {
        assert parent[x] in order && Linked(g, dist, parent, x);
      }
    }
    forall i, j | 0 <= i < |order| && 0 <= j < |order| && order[j] in parent' && parent'[order[j]] == order[i]
      ensures i < j
    {
      assert order[j] != v;
      assert parent[order[j]] == order[i];
    }
  }

  lemma ImproveHeap(g: Graph, dist: Labels, heap: Heap, order: seq<NodeId>, v: NodeId, d: nat)
    requires g.Keys <= dist.Keys && forall i :: 0 <= i < |order| ==> order[i] in g
    requires HeapOk(g, dist, heap, order)
    requires v in g && v !in order && d < dist[v] <= UNREACHED && forall i :: 0 <= i < |order| ==> dist[order[i]] <= d
    ensures HeapOk(g, dist[v := d], heap + multiset{(d, v)}, order)
  {
    var dist', heap' := dist[v := d], heap + multiset{(d, v)};
    assert (d, v) !in heap;
    forall f | f in heap'
      ensures f == (d, v) || f in heap
    {
    }
    forall x | x in g && x !in order && dist'[x] < UNREACHED
      ensures heap'[(dist'[x], x)] == 1
    {
      if x != v {
        assert heap'[(dist[x], x)] == heap[(dist[x], x)];
      }
    }
  }

  lemma ImprovedIsNew(g: Graph, src: NodeId, dist: Labels, order: seq<NodeId>, k: nat, u: NodeId, v: NodeId, d: nat)
    requires OrderOk(g, src, order, k) && LabelsOk(g, src, dist, order, k)
    requires order != [] && u == order[|order| - 1] && v in g && dist[u] <= d < dist[v]
    ensures g.Keys <= dist.Keys && v !in order && v != src && dist[v] <= UNREACHED
    ensures forall i :: 0 <= i < |order| ==> dist[order[i]] <= d
  {
    forall i | 0 <= i < |order|
      ensures dist[order[i]] <= dist[u]
    {
      assert i == |order| - 1 || dist[order[i]] <= dist[order[|order| - 1]];
    }
  }

  /** Link `k` of the last expanded node improves its target, which is then a node not expanded so far. */
  lemma Improve(g: Graph, src: NodeId, dist: Labels, parent: Parents, heap: Heap, order: seq<NodeId>, k: nat,
                u: NodeId, v: NodeId, d: nat)
    requires Inv(g, src, dist, parent, heap, order, k)
    requires order != [] && u == order[|order| - 1] && k < |g[u]| && v == g[u][k].0
    requires v in g && d == dist[u] + g[u][k].1 < dist[v]
    ensures Inv(g, src, dist[v := d], parent[v := u], heap + multiset{(d, v)}, order, k + 1)
  {
    hide LabelsOk, TreeOk, HeapOk;
    ImprovedIsNew(g, src, dist, order, k, u, v, d);
    assert g[u][k] == (v, d - dist[u]) && g[u][k] in g[u];
    ImproveLabels(g, src, dist, order, k, u, v, d);
    ImproveTree(g, src, dist, parent, order, u, v, d);
    ImproveHeap(g, dist, heap, order, v, d);
  }

  lemma PassLabels(g: Graph, src: NodeId, dist: Labels, order: seq<NodeId>, k: nat, u: NodeId, v: NodeId, dist': Labels)
    requires OrderOk(g, src, order, k) && LabelsOk(g, src, dist, order, k)
    requires order != [] && u == order[|order| - 1] && k < |g[u]| && v == g[u][k].0
    requires v in g ==> dist[v] <= dist[u] + g[u][k].1 && dist[v] < UNREACHED
    requires dist' == if v in dist then dist else dist[v := 0]
    ensures OrderOk(g, src, order, k + 1) && LabelsOk(g, src, dist', order, k + 1)
  {
    var k' := k + 1;
    SeenNext(g, order, k, k');
    assert Seen(g, order, k', u, g[u][k]);
    forall w, e: Edge | Seen(g, order, k', w, e)
      ensures e.0 in dist' && (e.0 in g ==> dist'[e.0] < UNREACHED && dist'[e.0] <= dist'[w] + e.1)
    {
      assert Seen(g, order, k, w, e) || (w == u && e == g[u][k]);
    }
    forall x | x in dist' && x !in g
      ensures dist'[x] == 0 && exists w, e: Edge :: Seen(g, order, k', w, e) && e.0 == x
    {
      if x in dist {
        var w, e :| Seen(g, order, k, w, e) && e.0 == x;
        assert Seen(g, order, k', w, e);
      }
    }
  }

  /** The labels of nodes outside the graph matter neither to the tree nor to the heap. */
  lemma SameTree(g: Graph, src: NodeId, dist: Labels, dist': Labels, parent: Parents, order: seq<NodeId>)
    requires g.Keys <= dist.Keys && g.Keys <= dist'.Keys && forall x :: x in g ==> dist'[x] == dist[x]
    requires TreeOk(g, src, dist, parent, order)
    ensures TreeOk(g, src, dist', parent, order)
  {
    hide Linked;
    forall v | v in parent
      ensures Linked(g, dist', parent, v)
    {
      SameLink(g, dist, dist', parent, v);
    }
  }

  lemma SameLink(g: Graph, dist: Labels, dist': Labels, parent: Parents, v: NodeId)
    requires g.Keys <= dist.Keys && g.Keys <= dist'.Keys && forall x :: x in g ==> dist'[x] == dist[x]
    requires v in parent && Linked(g, dist, parent, v)
    ensures Linked(g, dist', parent, v)
  {
  }

  lemma SameHeap(g: Graph, dist: Labels, dist': Labels, heap: Heap, order: seq<NodeId>)
    requires g.Keys <= dist.Keys && g.Keys <= dist'.Keys && forall x :: x in g ==> dist'[x] == dist[x]
    requires forall i :: 0 <= i < |order| ==> order[i] in g
    requires HeapOk(g, dist, heap, order)
    ensures HeapOk(g, dist', heap, order)
  {
    forall v | v in g && v !in order && dist'[v] < UNREACHED
      ensures heap[(dist'[v], v)] == 1
    {
      assert dist[v] == dist'[v];
    }
    forall e | e in heap
      ensures e.1 in g && dist'[e.1] <= e.0 < UNREACHED && (e.1 in order ==> dist'[e.1] < e.0)
    {
      assert dist[e.1] == dist'[e.1];
    }
  }

  /** Link `k` of the last expanded node improves nothing; a target outside the graph is labelled 0. */
  lemma Pass(g: Graph, src: NodeId, dist: Labels, parent: Parents, heap: Heap, order: seq<NodeId>, k: nat, u: NodeId,
             v: NodeId, dist': Labels)
    requires Inv(g, src, dist, parent, heap, order, k)
    requires order != [] && u == order[|order| - 1] && k < |g[u]| && v == g[u][k].0
    requires v in g ==> dist[v] <= dist[u] + g[u][k].1 && dist[v] < UNREACHED
    requires dist' == if v in dist then dist else dist[v := 0]
    ensures Inv(g, src, dist', parent, heap, order, k + 1)
  {
    PassLabels(g, src, dist, order, k, u, v, dist');
    SameTree(g, src, dist, dist', parent, order);
    SameHeap(g, dist, dist', heap, order);
  }
}
