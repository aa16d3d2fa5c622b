/** Longest-prefix match over a routing table. */
module Lookup {
  import opened Bits
  import opened Addressing
  import opened Paths
  import opened RouteTables

  predicate Covers(e: RoutingTableEntry, address: nat) {
    BitAnd(address, e.mask) == BitAnd(e.destinationSubnet, e.mask)
  }

  ghost predicate LongestMatch(table: seq<RoutingTableEntry>, address: nat, e: RoutingTableEntry) {
    && e in table && Covers(e, address)
    && forall f :: f in table && Covers(f, address) ==> PopCount(f.mask) <= PopCount(e.mask)
  }

  ghost predicate NoneAsLongBefore(table: seq<RoutingTableEntry>, address: nat, i: int)
    requires 0 <= i < |table|
  {
    forall j :: 0 <= j < i && Covers(table[j], address) ==> PopCount(table[j].mask) < PopCount(table[i].mask)
  }

  ghost predicate FirstLongestMatch(table: seq<RoutingTableEntry>, address: nat, i: int) {
    0 <= i < |table| && LongestMatch(table, address, table[i]) && NoneAsLongBefore(table, address, i)
  }

  lemma CoversIs(e: RoutingTableEntry, address: nat)
    ensures Covers(e, address) <==> BitAnd(address, e.mask) == BitAnd(e.destinationSubnet, e.mask)
  {
  }

  /** An entry with the mask of a prefix length covers the addresses that agree with its subnet in that many bits from
      the top. */
  lemma CoversTopBits(e: RoutingTableEntry, prefix: nat, address: nat)
    requires prefix <= 32 && e.mask == MaskOf(prefix) && address < WORD32 && e.destinationSubnet < WORD32
    ensures Covers(e, address) <==> address / Pow2(32 - prefix) == e.destinationSubnet / Pow2(32 - prefix)
  {
    hide Pow2, MaskOf, BitAnd;
    AndMask(address, prefix);
    AndMask(e.destinationSubnet, prefix);
    SameClear(address, e.destinationSubnet, Pow2(32 - prefix));
  }

  lemma SameClear(x: nat, y: nat, d: nat)
    requires d >= 1
    ensures Clear(x, d) == Clear(y, d) <==> x / d == y / d
  {
    assert Clear(x, d) == d * (x / d) && Clear(y, d) == d * (y / d);
    MulGapBetween(d, x / d, y / d);
  }

  /** A right answer to a lookup. */
  ghost predicate Answers(table: seq<RoutingTableEntry>, address: nat, found: bool, hop: NodeId) {
    && (found <==> exists e :: e in table && Covers(e, address))
    && (found ==> exists e :: LongestMatch(table, address, e) && e.nextHopId == hop)
    && (!found ==> hop == 0)
  }

  /** Contiguous masks, and no two entries for the same prefix. */
  ghost predicate DistinctPrefixes(table: seq<RoutingTableEntry>) {
    && (forall i :: 0 <= i < |table| ==> Contiguous(table[i].mask))
    && (forall i, j :: 0 <= i < j < |table| ==>
          table[i].mask != table[j].mask || BitAnd(table[i].destinationSubnet,
            table[i].mask) != BitAnd(table[j].destinationSubnet, table[j].mask))
  }

  lemma LongestMatchUnique(table: seq<RoutingTableEntry>, address: nat, e: RoutingTableEntry, f: RoutingTableEntry)
    requires DistinctPrefixes(table) && LongestMatch(table, address, e) && LongestMatch(table, address, f)
    ensures e == f
  {
    LengthDeterminesMask(e.mask, f.mask);
  }

  /** With contiguous masks and distinct prefixes the answer does not depend on the order of the table. */
  lemma OrderDoesNotMatter(table: seq<RoutingTableEntry>, shuffled: seq<RoutingTableEntry>, address: nat,
                           found: bool, hop: NodeId, found': bool, hop': NodeId)
    requires multiset(table) == multiset(shuffled) && DistinctPrefixes(table)
    requires Answers(table, address, found, hop) && Answers(shuffled, address, found', hop')
    ensures found == found' && hop == hop'
  {
    hide PopCount, Covers, DistinctPrefixes;
    assert forall e :: e in table <==> e in multiset(table);
    assert forall e :: e in shuffled <==> e in multiset(shuffled);
    if found {
      var e :| LongestMatch(table, address, e) && e.nextHopId == hop;
      var f :| LongestMatch(shuffled, address, f) && f.nextHopId == hop';
      assert LongestMatch(table, address, f);
      LongestMatchUnique(table, address, e, f);
    }
  }

  /** Covering prefixes nest: of two entries that cover a common address, the one with the longer contiguous mask
      covers nothing that the other does not cover. */
  lemma CoveringPrefixesNest(short: RoutingTableEntry, long: RoutingTableEntry, common: nat, address: nat)
    requires Contiguous(short.mask) && Contiguous(long.mask) && PopCount(short.mask) <= PopCount(long.mask)
    requires common < WORD32 && address < WORD32
    requires Covers(short, common) && Covers(long, common) && Covers(long, address)
    ensures Covers(short, address)
  {
    var p: nat :| p <= 32 && short.mask == MaskOf(p);
    var q: nat :| q <= 32 && long.mask == MaskOf(q);
    PrefixRecovered(p);
    PrefixRecovered(q);
    PrefixesNest(common, address, p, q);
  }
}
