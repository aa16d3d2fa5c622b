/** The ARP cache object: a usage list whose nodes have a lasting identity, and a map from addresses to MAC addresses
    and list positions. It behaves as the recency sequence. */
module ArpCaches {
  import opened Common
  import opened Recency

  /** A list node. Its identity is what an iterator denotes: it survives moving the node within the list. */
  datatype ListNode = ListNode(id: nat, key: string)

  datatype CacheNode = CacheNode(mac: string, position: nat)

  type UsageList = seq<ListNode>
  type CacheMap = map<string, CacheNode>

  predicate HasId(list: UsageList, id: nat) {
    exists j :: 0 <= j < |list| && list[j].id == id
  }

  lemma HasIdTail(list: UsageList, id: nat)
    requires HasId(list, id)
    ensures list != [] && (list[0].id != id ==> HasId(list[1..], id))
  {
    var j :| 0 <= j < |list| && list[j].id == id;
    if j > 0 {
      assert list[1..][j - 1].id == id;
    }
  }

  /** Where the node with this identity stands. */
  function PositionOf(list: UsageList, id: nat): (i: nat)
    requires HasId(list, id)
    ensures i < |list| && list[i].id == id
  {
    HasIdTail(list, id);
    if list[0].id == id then 0 else 1 + PositionOf(list[1..], id)
  }

  /** The node at position i spliced to the front. */
  function MoveToFront(list: UsageList, i: nat): UsageList
    requires i < |list|
  {
    [list[i]] + list[..i] + list[i + 1..]
  }

  ghost predicate DistinctNodes(list: UsageList) {
    forall i, j :: 0 <= i < j < |list| ==> list[i].id != list[j].id && list[i].key != list[j].key
  }

  /** A node's key is in the map, stored with the node's own identity. */
  ghost predicate Tied(n: ListNode, m: CacheMap, nextId: nat) {
    n.id < nextId && n.key in m && m[n.key].position == n.id
  }

  ghost predicate HasKey(list: UsageList, k: string) {
    exists n :: n in list && n.key == k
  }

  /** The list and the map hold the same keys, none twice, and each stored position is the node of its own key. */
  ghost predicate Consistent(list: UsageList, m: CacheMap, nextId: nat) {
    && |m| == |list| && DistinctNodes(list)
    && (forall n :: n in list ==> Tied(n, m, nextId))
    && (forall k :: k in m ==> HasKey(list, k))
  }

  ghost predicate Mapped(list: UsageList, m: CacheMap) {
    forall i :: 0 <= i < |list| ==> list[i].key in m
  }

  /** The recency sequence that a list and a map stand for. */
  ghost function Entries(list: UsageList, m: CacheMap): (c: Cache)
    requires Mapped(list, m)
    ensures |c| == |list|
    ensures forall i :: 0 <= i < |list| ==> c[i] == Entry(list[i].key, m[list[i].key].mac)
  {
    seq(|list|, i requires 0 <= i < |list| => Entry(list[i].key, m[list[i].key].mac))
  }

  /** A stored position leads to the node of its own key. */
  lemma PositionIsOwn(list: UsageList, m: CacheMap, nextId: nat, k: string)
    requires Consistent(list, m, nextId) && k in m
    ensures HasId(list, m[k].position) && list[PositionOf(list, m[k].position)].key == k
  {
    assert HasKey(list, k);
    var n :| n in list && n.key == k;
    assert Tied(n, m, nextId);
    var i :| 0 <= i < |list| && list[i] == n;
  }

  lemma EntriesDistinct(list: UsageList, m: CacheMap, nextId: nat)
    requires Consistent(list, m, nextId) && Mapped(list, m)
    ensures Distinct(Entries(list, m))
  {
  }

  /** The map answers lookups as the recency sequence does. */
  lemma MapFinds(list: UsageList, m: CacheMap, nextId: nat, k: string)
    requires Consistent(list, m, nextId) && Mapped(list, m)
    ensures Find(Entries(list, m), k) == if k in m then Some(m[k].mac) else None
  {
    var c := Entries(list, m);
    var found := Find(c, k);
    if found.Some? {
      var j :| 0 <= j < |c| && c[j] == Entry(k, found.value);
      assert list[j].key == k;
    }
  }

  lemma MovedNodes(list: UsageList, i: nat)
    requires i < |list| && DistinctNodes(list)
    ensures DistinctNodes(MoveToFront(list, i)) && forall n :: n in MoveToFront(list, i) <==> n in list
  {
    var moved := MoveToFront(list, i);
    forall n | n in list
      ensures n in moved
    {
      var j :| 0 <= j < |list| && list[j] == n;
      assert moved[if j == i then 0 else if j < i then j + 1 else j] == n;
    }
  }

  lemma ErasedNodes(list: UsageList, i: nat)
    requires i < |list| && DistinctNodes(list)
    ensures var r := list[..i] + list[i + 1..];
      DistinctNodes(r) && forall n :: n in r <==> n in list && n != list[i]
  {
    var r := list[..i] + list[i + 1..];
    forall n | n in list && n != list[i]
      ensures n in r
    {
      var j :| 0 <= j < |list| && list[j] == n;
      assert r[if j < i then j else j - 1] == n;
    }
  }

  /** Splicing a node to the front and replacing its MAC address keeps the cache consistent. */
  lemma SpliceConsistent(list: UsageList, m: CacheMap, nextId: nat, i: nat, mac: string)
    requires Consistent(list, m, nextId) && i < |list| && list[i].key in m
    ensures Consistent(MoveToFront(list, i), m[list[i].key := CacheNode(mac, m[list[i].key].position)], nextId)
  {
    var k := list[i].key;
    var moved, m' := MoveToFront(list, i), m[k := CacheNode(mac, m[k].position)];
    MovedNodes(list, i);
    hide DistinctNodes, MoveToFront;
    assert m'.Keys == m.Keys;
    assert |m'| == |m'.Keys| == |m|;
    MovedLength(list, i);
    forall x | x in m'
      ensures HasKey(moved, x)
    {
      assert HasKey(list, x);
    }
    forall n | n in moved
      ensures Tied(n, m', nextId)
    {
      assert Tied(n, m, nextId);
    }
  }

  lemma MovedLength(list: UsageList, i: nat)
    requires i < |list|
    ensures |MoveToFront(list, i)| == |list|
  {
  }

  /** Splicing a node to the front, with its MAC address replaced, is moving the entry to the front. */
  lemma SpliceMoves(list: UsageList, m: CacheMap, nextId: nat, i: nat, mac: string)
    requires Consistent(list, m, nextId) && i < |list| && Mapped(list, m)
    ensures var k := list[i].key;
      var m' := m[k := CacheNode(mac, m[k].position)];
      && Mapped(MoveToFront(list, i), m')
      && Entries(MoveToFront(list, i), m') == ToFront(Entries(list, m), Entry(k, mac))
  {
    var k, c := list[i].key, Entries(list, m);
    var moved, m' := MoveToFront(list, i), m[k := CacheNode(mac, m[k].position)];
    EntriesDistinct(list, m, nextId);
    WithoutAt(c, k, i);
    var r := c[..i] + c[i + 1..];
    assert Without(c, k) == r;
    MovedEntries(list, m, nextId, i, mac);
  }

  lemma MovedEntries(list: UsageList, m: CacheMap, nextId: nat, i: nat, mac: string)
    requires Consistent(list, m, nextId) && i < |list| && Mapped(list, m)
    ensures var k, c := list[i].key, Entries(list, m);
      var m' := m[k := CacheNode(mac, m[k].position)];
      && Mapped(MoveToFront(list, i), m')
      && Entries(MoveToFront(list, i), m') == [Entry(k, mac)] + (c[..i] + c[i + 1..])
  {
    var k := list[i].key;
    var m' := m[k := CacheNode(mac, m[k].position)];
    var front, back := list[..i], list[i + 1..];
    AroundKey(list, m, m', nextId, i);
    EntriesConcat(front, back, m');
    EntriesConcat([list[i]], front + back, m');
    assert MoveToFront(list, i) == [list[i]] + (front + back);
    assert Entries([list[i]], m') == [Entry(k, mac)];
  }

  lemma EntriesConcat(a: UsageList, b: UsageList, m: CacheMap)
    requires Mapped(a, m) && Mapped(b, m)
    ensures Mapped(a + b, m) && Entries(a + b, m) == Entries(a, m) + Entries(b, m)
  {
    assert Entries(a + b, m) == Entries(a, m) + Entries(b, m);
  }

  /** A change of the map at the key of node i leaves the entries before and after it alone. */
  lemma AroundKey(list: UsageList, m: CacheMap, m': CacheMap, nextId: nat, i: nat)
    requires Consistent(list, m, nextId) && i < |list| && Mapped(list, m)
    requires forall x :: x in m && x != list[i].key ==> x in m' && m'[x] == m[x]
    ensures Mapped(list[..i], m') && Entries(list[..i], m') == Entries(list, m)[..i]
    ensures Mapped(list[i + 1..], m') && Entries(list[i + 1..], m') == Entries(list, m)[i + 1..]
  {
    forall j | 0 <= j < |list| && j != i
      ensures list[j].key in m' && m'[list[j].key] == m[list[j].key]
    {
      DifferentKeys(list, m, nextId, j, i);
    }
    hide Consistent;
    assert Entries(list[..i], m') == Entries(list, m)[..i];
    assert Entries(list[i + 1..], m') == Entries(list, m)[i + 1..];
  }

  lemma DifferentKeys(list: UsageList, m: CacheMap, nextId: nat, i: nat, j: nat)
    requires Consistent(list, m, nextId) && i < |list| && j < |list| && i != j
    ensures list[i].key != list[j].key
  {
  }

  /** Taking a node out of the list and its key out of the map keeps the cache consistent. */
  lemma EraseConsistent(list: UsageList, m: CacheMap, nextId: nat, i: nat)
    requires Consistent(list, m, nextId) && i < |list| && list[i].key in m
    ensures Consistent(list[..i] + list[i + 1..], m - {list[i].key}, nextId)
  {
    var k := list[i].key;
    var list', m' := list[..i] + list[i + 1..], m - {k};
    ErasedNodes(list, i);
    assert m'.Keys == m.Keys - {k};
    assert |m'| == |m'.Keys| == |m.Keys| - 1;
    forall x | x in m'
      ensures HasKey(list', x)
    {
      assert HasKey(list, x);
      var n :| n in list && n.key == x;
      assert n in list';
    }
    forall n | n in list'
      ensures Tied(n, m', nextId)
    {
      assert Tied(n, m, nextId);
      var j: nat :| j < |list| && list[j] == n;
      DifferentKeys(list, m, nextId, j, i);
    }
  }

  /** Taking a node out of the list and its key out of the map is removing the entry. */
  lemma EraseRemoves(list: UsageList, m: CacheMap, nextId: nat, i: nat)
    requires Consistent(list, m, nextId) && i < |list| && Mapped(list, m)
    ensures var k, list' := list[i].key, list[..i] + list[i + 1..];
      && Mapped(list', m - {k})
      && Entries(list', m - {k}) == Entries(list, m)[..i] + Entries(list, m)[i + 1..] == Without(Entries(list, m), k)
  {
    var k, c := list[i].key, Entries(list, m);
    var list', m' := list[..i] + list[i + 1..], m - {k};
    EntriesDistinct(list, m, nextId);
    WithoutAt(c, k, i);
    AroundKey(list, m, m', nextId, i);
    EntriesConcat(list[..i], list[i + 1..], m');
  }

  /** Pushing a node for a new key is adding an entry at the front. */
  lemma PushAdds(list: UsageList, m: CacheMap, nextId: nat, k: string, mac: string)
    requires Consistent(list, m, nextId) && k !in m && Mapped(list, m)
    ensures var list', m' := [ListNode(nextId, k)] + list, m[k := CacheNode(mac, nextId)];
      && Mapped(list', m')
      && Entries(list', m') == [Entry(k, mac)] + Entries(list, m)
  {
    var list', m' := [ListNode(nextId, k)] + list, m[k := CacheNode(mac, nextId)];
    hide Consistent;
    forall j | 0 <= j < |list'|
      ensures list'[j].key in m' && j > 0 ==> m'[list'[j].key] == m[list'[j].key]
    {
      if j > 0 {
        assert list'[j] == list[j - 1];
      }
    }
    assert Entries(list', m') == [Entry(k, mac)] + Entries(list, m);
  }

  lemma PushConsistent(list: UsageList, m: CacheMap, nextId: nat, k: string, mac: string)
    requires Consistent(list, m, nextId) && k !in m
    ensures Consistent([ListNode(nextId, k)] + list, m[k := CacheNode(mac, nextId)], nextId + 1)
  {
    var first := ListNode(nextId, k);
    var list', m' := [first] + list, m[k := CacheNode(mac, nextId)];
    assert m'.Keys == m.Keys + {k};
    assert |m'| == |m'.Keys| == |m.Keys| + 1;
    forall n | n in list
      ensures Tied(n, m', nextId + 1) && n.id != nextId && n.key != k
    {
      assert Tied(n, m, nextId);
    }
    assert DistinctNodes(list') by { PushDistinct(list, first); }
    forall x | x in m'
      ensures HasKey(list', x)
    {
      if x == k {
        assert first in list';
      } else {
        assert HasKey(list, x);
        var n :| n in list && n.key == x;
        assert n in list';
      }
    }
  }

  lemma PushDistinct(list: UsageList, first: ListNode)
    requires DistinctNodes(list) && forall n :: n in list ==> n.id != first.id && n.key != first.key
    ensures DistinctNodes([first] + list)
  {
  }

  class ArpCache {
    const capacityLimit: nat
    var usageList: UsageList
    var cacheMap: CacheMap
    var nextId: nat

    ghost predicate Valid()
      reads this
    {
      && capacityLimit >= 1 && |cacheMap| <= capacityLimit && Consistent(usageList, cacheMap, nextId)
      && Mapped(usageList, cacheMap)
    }

    /** The recency sequence the object stands for. */
    ghost function View(): (c: Cache)
      requires Valid()
      reads this
    {
      Entries(usageList, cacheMap)
    }

    constructor (maxCapacity: nat)
      requires maxCapacity > 0
      ensures Valid() && capacityLimit == maxCapacity && View() == []
    {
      capacityLimit := maxCapacity;
      usageList, cacheMap, nextId := [], map[], 0;
    }

    /** Moves the node at an iterator to the front of the list. */
    method Splice(position: nat)
      requires HasId(usageList, position)
      modifies this`usageList
      ensures usageList == MoveToFront(old(usageList), PositionOf(old(usageList), position))
    {
      var i := PositionOf(usageList, position);
      usageList := [usageList[i]] + usageList[..i] + usageList[i + 1..];
    }

    method Get(ip: string) returns (hit: bool, mac: string)
      requires Valid()
      modifies this`usageList
      ensures Valid() && View() == Apply(capacityLimit, old(View()), Recency.Get(ip))
      ensures hit <==> Find(old(View()), ip).Some?
      ensures mac == if hit then Find(old(View()), ip).value else ""
    {
      hide Consistent, Entries, Find;
      MapFinds(usageList, cacheMap, nextId, ip);
      if ip !in cacheMap {
        return false, "";
      }
      PositionIsOwn(usageList, cacheMap, nextId, ip);
      ghost var i := PositionOf(usageList, cacheMap[ip].position);
      SpliceMoves(usageList, cacheMap, nextId, i, cacheMap[ip].mac);
      SpliceConsistent(usageList, cacheMap, nextId, i, cacheMap[ip].mac);
      MovedLength(usageList, i);
      assert cacheMap[ip := CacheNode(cacheMap[ip].mac, cacheMap[ip].position)] == cacheMap;
      Splice(cacheMap[ip].position);
      return true, cacheMap[ip].mac;
    }

    method Put(ip: string, mac: string)
      requires Valid()
      modifies this
      ensures Valid() && View() == Apply(capacityLimit, old(View()), Recency.Put(ip, mac))
    {
      hide Consistent, Entries, Find;
      MapFinds(usageList, cacheMap, nextId, ip);
      Sizes(usageList, cacheMap, nextId);
      if ip in cacheMap {
        PositionIsOwn(usageList, cacheMap, nextId, ip);
        ghost var i := PositionOf(usageList, cacheMap[ip].position);
        SpliceMoves(usageList, cacheMap, nextId, i, mac);
        SpliceConsistent(usageList, cacheMap, nextId, i, mac);
        MovedLength(usageList, i);
        cacheMap := cacheMap[ip := CacheNode(mac, cacheMap[ip].position)];
        Splice(cacheMap[ip].position);
        Sizes(usageList, cacheMap, nextId);
        return;
      }
      if |cacheMap| >= capacityLimit {
        Evict();
      }
      PushAdds(usageList, cacheMap, nextId, ip, mac);
      PushConsistent(usageList, cacheMap, nextId, ip, mac);
      usageList := [ListNode(nextId, ip)] + usageList;
      cacheMap := cacheMap[ip := CacheNode(mac, nextId)];
      nextId := nextId + 1;
      Sizes(usageList, cacheMap, nextId);
    }

    /** Drops the node at the back of the list and its map entry. */
    method Evict()
      requires Valid() && |cacheMap| > 0
      modifies this`usageList, this`cacheMap
      ensures Valid() && View() == old(View())[..|old(View())| - 1] && |cacheMap| == |old(cacheMap)| - 1
      ensures cacheMap.Keys <= old(cacheMap.Keys)
    {
      hide Consistent, Entries;
      Sizes(usageList, cacheMap, nextId);
      ghost var n := |usageList| - 1;
      EraseRemoves(usageList, cacheMap, nextId, n);
      EraseConsistent(usageList, cacheMap, nextId, n);
      ghost var c := View();
      assert usageList[..n] + usageList[n + 1..] == usageList[..n] && c[..n] + c[n + 1..] == c[..n];
      var target := usageList[|usageList| - 1].key;
      cacheMap := cacheMap - {target};
      usageList := usageList[..|usageList| - 1];
      Sizes(usageList, cacheMap, nextId);
    }

    method Invalidate(ip: string) returns (present: bool)
      requires Valid()
      modifies this`usageList, this`cacheMap
      ensures Valid() && View() == Apply(capacityLimit, old(View()), Recency.Invalidate(ip))
      ensures present <==> Has(old(View()), ip)
    {
      hide Consistent, Entries, Find;
      MapFinds(usageList, cacheMap, nextId, ip);
      Sizes(usageList, cacheMap, nextId);
      if ip !in cacheMap {
        WithoutAbsent(View(), ip);
        return false;
      }
      PositionIsOwn(usageList, cacheMap, nextId, ip);
      var i := PositionOf(usageList, cacheMap[ip].position);
      EraseRemoves(usageList, cacheMap, nextId, i);
      EraseConsistent(usageList, cacheMap, nextId, i);
      usageList := usageList[..i] + usageList[i + 1..];
      cacheMap := cacheMap - {ip};
      Sizes(usageList, cacheMap, nextId);
      return true;
    }
  }

  lemma Sizes(list: UsageList, m: CacheMap, nextId: nat)
    requires Consistent(list, m, nextId) && Mapped(list, m)
    ensures |m| == |list| == |Entries(list, m)|
  {
  }
}
