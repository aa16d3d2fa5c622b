/** Why delivery asks for one owner of an address: three routers in a line, of which the outer two share a prefix, and
    tables that send packets for the one back and forth between the other two. */
module SharedPrefix {
  import opened Bits
  import opened Paths
  import opened Effective
  import opened RouteTables
  import opened Lookup
  import opened Forwarding

  /** Routers 0, 1 and 2 with a link of cost 1 between neighbours. */
  ghost predicate IsLine(g: Graph) {
    g.Keys == {0, 1, 2} && g[0] == [(1, 1)] && g[1] == [(0, 1), (2, 1)] && g[2] == [(1, 1)]
  }

  function Apart(a: NodeId, b: NodeId): nat {
    if a < b then b - a else a - b
  }

  /** The neighbour of `a` on the way to `b`. */
  function Toward(a: NodeId, b: NodeId): NodeId
    requires a != b
  {
    if a < b then a + 1 else a - 1
  }

  lemma LineLink(g: Graph, a: NodeId, e: Edge)
    requires IsLine(g) && a in g && e in g[a]
    ensures e.1 == 1 && Apart(a, e.0) == 1 && e.0 in g
  {
  }

  lemma TowardIsLink(g: Graph, a: NodeId, b: NodeId)
    requires IsLine(g) && a in g && b in g && a != b
    ensures (Toward(a, b), 1) in g[a] && Toward(a, b) in g
  {
    assert g[1][0] == (0, 1) && g[1][1] == (2, 1);
  }

  lemma {:induction false} LineWalk(g: Graph, a: NodeId, p: seq<Edge>, b: NodeId)
    requires IsLine(g) && IsWalk(g, a, p, b)
    ensures Weight(p) >= Apart(a, b)
    decreases p
  {
    if p != [] {
      LineLink(g, a, p[0]);
      hide IsLine;
      LineWalk(g, p[0].0, p[1..], b);
    }
  }

  lemma {:induction false} LineDistance(g: Graph, a: NodeId, b: NodeId)
    requires IsLine(g) && a in g && b in g
    ensures Shortest(g, a, b, Apart(a, b))
    decreases Apart(a, b)
  {
    forall p | IsWalk(g, a, p, b)
      ensures Apart(a, b) <= Weight(p)
    {
      LineWalk(g, a, p, b);
    }
    if a == b {
      assert IsWalk(g, a, [], b) && Weight([]) == 0;
    } else {
      TowardIsLink(g, a, b);
      hide IsLine;
      LineDistance(g, Toward(a, b), b);
      var p :| IsWalk(g, Toward(a, b), p, b) && Weight(p) == Apart(Toward(a, b), b);
      WalkCons(g, a, (Toward(a, b), 1), p, b);
    }
  }

  lemma LineRoute(g: Graph, a: NodeId, b: NodeId)
    requires IsLine(g) && a in g && b in g && a != b
    ensures InReach(g, a, b) && CorrectRoute(g, a, b, Toward(a, b), Apart(a, b))
  {
    LineDistance(g, a, b);
    TowardIsLink(g, a, b);
    assert Apart(a, b) < FAILED_COST by { assert a <= 2 && b <= 2; }
    LineDistance(g, Toward(a, b), b);
    hide IsLine, Shortest;
    assert Within(g, a, b);
    var e: Edge := (Toward(a, b), 1);
    assert e in g[a] && Shortest(g, e.0, b, Apart(a, b) - 1);
  }

  lemma LineIsClosed(g: Graph)
    requires IsLine(g)
    ensures SelfContained(g) && forall u, e: Edge :: u in g && e in g[u] ==> e.1 > 0
  {
    forall u, e: Edge | u in g && e in g[u]
      ensures e.1 > 0
    {
      LineLink(g, u, e);
    }
    forall u, i | u in g && 0 <= i < |g[u]|
      ensures g[u][i].0 in g
    {
      LineLink(g, u, g[u][i]);
    }
  }

  function LineEntry(ips: map<NodeId, nat>, masks: map<NodeId, nat>, src: NodeId, dest: NodeId): RoutingTableEntry
    requires dest in ips && dest in masks && dest != src
  {
    RoutingTableEntry(BitAnd(ips[dest], masks[dest]), masks[dest], Toward(src, dest), "eth0", Apart(src, dest))
  }

  /** The table of a router of the line that lists the others in either order. */
  lemma LineTable(g: Graph, ips: map<NodeId, nat>, masks: map<NodeId, nat>, src: NodeId, x: NodeId, y: NodeId)
    requires IsLine(g) && AllKnown(g, ips, masks)
    requires x != src && y != src && x != y && g.Keys == {src, x, y}
    ensures x in g && y in g
    ensures HasTable(g, src, ips, masks, [x, y], [LineEntry(ips, masks, src, x), LineEntry(ips, masks, src, y)])
  {
    assert x in g && y in g && src in g;
    LineRoute(g, src, x);
    LineRoute(g, src, y);
    TowardIsLink(g, src, x);
    TowardIsLink(g, src, y);
    OthersInReach(g, src, x, y);
    hide IsLine, InReach, CorrectRoute, SelfContained, Toward, Apart, PartialTable, EntryFor, HasTable;
    var ex, ey := LineEntry(ips, masks, src, x), LineEntry(ips, masks, src, y);
    EntryIsRight(g, src, ips, masks, x, ex);
    EntryIsRight(g, src, ips, masks, y, ey);
    TwoEntries(g, ips, masks, src, x, y, ex, ey);
  }

  lemma TwoEntries(g: Graph, ips: map<NodeId, nat>, masks: map<NodeId, nat>, src: NodeId, x: NodeId, y: NodeId,
                   ex: RoutingTableEntry, ey: RoutingTableEntry)
    requires x != y && EntryFor(g, src, ips, masks, x, ex) && EntryFor(g, src, ips, masks, y, ey)
    requires forall dest :: InReach(g, src, dest) ==> dest == x || dest == y
    ensures HasTable(g, src, ips, masks, [x, y], [ex, ey])
  {
    hide InReach, PartialTable, EntryFor;
    NoneDone(g, src, ips, masks);
    AddEntry(g, src, ips, masks, {}, map[], [], [], x, ex);
    AddEntry(g, src, ips, masks, {} + {x}, map[][x := ex.nextHopId], [] + [x], [] + [ex], y, ey);
    assert [] + [x] + [y] == [x, y] && [] + [ex] + [ey] == [ex, ey];
    assert HoldsReach(g, src, {} + {x} + {y});
    assert TableFor(g, src, ips, masks, map[][x := ex.nextHopId][y := ey.nextHopId], [x, y], [ex, ey]);
  }

  lemma OthersInReach(g: Graph, src: NodeId, x: NodeId, y: NodeId)
    requires IsLine(g) && x != src && y != src && g.Keys == {src, x, y}
    ensures forall dest :: InReach(g, src, dest) ==> dest == x || dest == y
  {
    LineIsClosed(g);
    forall dest | InReach(g, src, dest)
      ensures dest == x || dest == y
    {
      NothingDangles(g, src, dest);
      assert dest in g;
    }
  }

  /** Routers 0 and 2 have the prefix that covers everything, router 1 a prefix that covers only itself. */
  ghost predicate Shared(ips: map<NodeId, nat>, masks: map<NodeId, nat>) {
    && ips.Keys == {0, 1, 2} && masks.Keys == {0, 1, 2}
    && ips[0] == 6 && ips[1] == 5 && ips[2] == 7
    && masks[0] == 0 && masks[1] == WORD32 - 1 && masks[2] == 0
  }

  lemma SharedCovers(ips: map<NodeId, nat>, masks: map<NodeId, nat>)
    requires Shared(ips, masks)
    ensures NodeCovers(ips, masks, 0, 7) && NodeCovers(ips, masks, 2, 7) && !NodeCovers(ips, masks, 1, 7)
    ensures PopCount(masks[0]) == PopCount(masks[2])
  {
    WordsArePowers();
    hide Pow2, BitAnd;
    AndAllOnes(5, 32);
    AndAllOnes(7, 32);
    AndZero(6);
    AndZero(7);
  }

  lemma AndZero(x: nat)
    ensures BitAnd(x, 0) == 0
  {
  }

  /** The first longest match of a lookup at `r` for the address hands over to `hop`. */
  ghost predicate LooksUp(tables: Tables, address: nat, r: NodeId, hop: NodeId) {
    r in tables && exists i :: FirstLongestMatch(tables[r], address, i) && tables[r][i].nextHopId == hop
  }

  lemma LookFromOuter(ips: map<NodeId, nat>, masks: map<NodeId, nat>, tables: Tables)
    requires Shared(ips, masks) && 0 in tables && tables[0] == [LineEntry(ips, masks, 0, 1), LineEntry(ips, masks, 0,
      2)]
    ensures LooksUp(tables, 7, 0, 1)
  {
    SharedCovers(ips, masks);
    hide PopCount, BitAnd, NodeCovers, Covers;
    EntryCovers(ips, masks, 1, tables[0][0], 7);
    EntryCovers(ips, masks, 2, tables[0][1], 7);
    assert FirstLongestMatch(tables[0], 7, 1);
  }

  lemma LookFromMiddle(ips: map<NodeId, nat>, masks: map<NodeId, nat>, tables: Tables)
    requires Shared(ips, masks) && 1 in tables && tables[1] == [LineEntry(ips, masks, 1, 0), LineEntry(ips, masks, 1,
      2)]
    ensures LooksUp(tables, 7, 1, 0)
  {
    SharedCovers(ips, masks);
    hide PopCount, BitAnd, NodeCovers, Covers;
    EntryCovers(ips, masks, 0, tables[1][0], 7);
    EntryCovers(ips, masks, 2, tables[1][1], 7);
    assert FirstLongestMatch(tables[1], 7, 0);
  }

  lemma NoOwner(g: Graph, ips: map<NodeId, nat>, masks: map<NodeId, nat>, owner: NodeId)
    requires IsLine(g) && Shared(ips, masks)
    ensures !Owner(g, ips, masks, 7, owner)
  {
    SharedCovers(ips, masks);
    hide PopCount, BitAnd, NodeCovers;
    assert 0 in g && 2 in g;
  }

  /** The tables of the three routers, those of router 1 listing router 0 first. */
  lemma LineConverges(g: Graph, ips: map<NodeId, nat>, masks: map<NodeId, nat>)
    returns (dests: map<NodeId, seq<NodeId>>, tables: Tables)
    requires IsLine(g) && Shared(ips, masks)
    ensures Converged(g, ips, masks, dests, tables)
    ensures tables[0] == [LineEntry(ips, masks, 0, 1), LineEntry(ips, masks, 0, 2)]
    ensures tables[1] == [LineEntry(ips, masks, 1, 0), LineEntry(ips, masks, 1, 2)]
  {
    LineIsClosed(g);
    LineTable(g, ips, masks, 0, 1, 2);
    LineTable(g, ips, masks, 1, 0, 2);
    LineTable(g, ips, masks, 2, 0, 1);
    hide HasTable, SelfContained, LineEntry;
    dests := map[0 := [1, 2], 1 := [0, 2], 2 := [0, 1]];
    tables := map[
      0 := [LineEntry(ips, masks, 0, 1), LineEntry(ips, masks, 0, 2)],
      1 := [LineEntry(ips, masks, 1, 0), LineEntry(ips, masks, 1, 2)],
      2 := [LineEntry(ips, masks, 2, 0), LineEntry(ips, masks, 2, 1)]];
  }

  /** With converged tables packets for address 7, which is that of router 2, go back and forth between 0 and 1: router
      0 knows no other way, and router 1 finds router 0 first among the two that share the prefix. */
  lemma SharedPrefixLoops(g: Graph, ips: map<NodeId, nat>, masks: map<NodeId, nat>)
    requires IsLine(g) && Shared(ips, masks)
    ensures exists dests, tables ::
      Converged(g, ips, masks, dests, tables) && LooksUp(tables, 7, 0, 1) && LooksUp(tables, 7, 1, 0)
    ensures forall owner :: !Owner(g, ips, masks, 7, owner)
  {
    var dests, tables := LineConverges(g, ips, masks);
    assert 0 in g && 1 in g;
    hide LooksUp, LineEntry, HasTable, Owner;
    LookFromOuter(ips, masks, tables);
    LookFromMiddle(ips, masks, tables);
    hide Converged;
    forall owner
      ensures !Owner(g, ips, masks, 7, owner)
    {
      NoOwner(g, ips, masks, owner);
    }
  }
}
