/** Inclusion: on the same trace a larger cache holds everything a smaller one holds. */
module Inclusion {
  import opened Recency

  /** `small` is `large`, or `large` with one entry taken out. */
  ghost predicate OneShort(small: Cache, large: Cache) {
    small == large || exists i :: TakenOut(small, large, i)
  }

  ghost predicate TakenOut(small: Cache, large: Cache, i: int) {
    0 <= i < |large| && small == large[..i] + large[i + 1..]
  }

  lemma TakenOutMembers(small: Cache, large: Cache, i: int)
    requires TakenOut(small, large, i)
    ensures |small| == |large| - 1
    ensures forall j :: 0 <= j < |small| ==> small[j] == large[if j < i then j else j + 1]
    ensures forall ip :: Has(small, ip) ==> Has(large, ip)
    ensures forall ip :: Has(large, ip) && large[i].ip != ip ==> Has(small, ip)
  {
    forall ip | Has(large, ip) && large[i].ip != ip
      ensures Has(small, ip)
    {
      var j :| 0 <= j < |large| && large[j].ip == ip;
      assert small[if j < i then j else j - 1].ip == ip;
    }
  }

  function TakeOut(c: Cache, i: nat): Cache
    requires i < |c|
  {
    c[..i] + c[i + 1..]
  }

  /** Two entries can be taken out in either order. */
  lemma EitherOrder(c: Cache, i: nat, j: nat)
    requires i < |c| && j < |c| && i != j
    ensures var i', j' := if i < j then i else i - 1, if j < i then j else j - 1;
      TakenOut(TakeOut(TakeOut(c, i), j'), TakeOut(c, j), i')
  {
    var i', j' := if i < j then i else i - 1, if j < i then j else j - 1;
    var a, b := TakeOut(TakeOut(c, i), j'), TakeOut(TakeOut(c, j), i');
    assert |a| == |b| == |c| - 2;
    var low, high := if i < j then i else j, if i < j then j else i;
    forall k | 0 <= k < |a|
      ensures a[k] == b[k]
    {
      assert a[k] == c[if k < low then k else if k + 1 < high then k + 1 else k + 2];
    }
    assert a == b;
  }

  lemma WithoutIsTakeOut(c: Cache, i: nat)
    requires Distinct(c) && i < |c|
    ensures Without(c, c[i].ip) == TakeOut(c, i)
  {
    hide Distinct, Without;
    WithoutAt(c, c[i].ip, i);
  }

  lemma TakenOutIs(small: Cache, large: Cache, i: nat, j: nat)
    requires TakenOut(small, large, i) && Distinct(large) && j < |large| && i != j
    ensures small == TakeOut(large, i) && Distinct(small)
    ensures var j' := if j < i then j else j - 1; j' < |small| && small[j'] == large[j]
  {
    TakenOutMembers(small, large, i);
    RemovedFacts(large, i);
  }

  /** Removing another address than the one taken out keeps one entry taken out. */
  lemma WithoutOther(small: Cache, large: Cache, i: nat, j: nat, ip: string)
    requires TakenOut(small, large, i) && Distinct(large) && j < |large| && i != j && large[j].ip == ip
    ensures exists k :: TakenOut(Without(small, ip), Without(large, ip), k)
  {
    hide Distinct, Without, Has, TakeOut;
    var j' := if j < i then j else j - 1;
    TakenOutIs(small, large, i, j);
    WithoutIsTakeOut(large, j);
    WithoutIsTakeOut(small, j');
    EitherOrder(large, i, j);
    hide TakenOut;
  }

  /** What is taken out of the larger cache is either the removed address, or stays taken out. */
  lemma WithoutBoth(small: Cache, large: Cache, i: nat, ip: string)
    requires TakenOut(small, large, i) && Distinct(large)
    ensures large[i].ip == ip ==> Without(small, ip) == Without(large, ip) == small
    ensures large[i].ip != ip ==> exists k :: TakenOut(Without(small, ip), Without(large, ip), k)
  {
    hide Distinct, Without;
    if large[i].ip == ip {
      RemovedFacts(large, i);
      WithoutAt(large, ip, i);
      WithoutAbsent(small, ip);
    } else if j: nat :| j < |large| && large[j].ip == ip {
      WithoutOther(small, large, i, j, ip);
    } else {
      NoneHas(large, ip);
      TakenOutMembers(small, large, i);
      hide Has;
      WithoutAbsent(large, ip);
      WithoutAbsent(small, ip);
      assert TakenOut(Without(small, ip), Without(large, ip), i);
    }
  }

  lemma NoneHas(c: Cache, ip: string)
    requires forall j: nat :: j < |c| ==> c[j].ip != ip
    ensures !Has(c, ip)
  {
  }

  lemma SharedMac(small: Cache, large: Cache, ip: string)
    requires OneShort(small, large) && Distinct(large) && Has(small, ip)
    ensures Has(large, ip) && Find(small, ip) == Find(large, ip)
  {
    if small != large {
      var i :| TakenOut(small, large, i);
      TakenOutMembers(small, large, i);
      var e, f := Entry(ip, Find(small, ip).value), Entry(ip, Find(large, ip).value);
      var j :| 0 <= j < |small| && small[j] == e;
      var k :| 0 <= k < |large| && large[k] == f;
      assert large[if j < i then j else j + 1] == e;
    }
  }

  lemma ConsOneShort(e: Entry, small: Cache, large: Cache)
    requires OneShort(small, large)
    ensures OneShort([e] + small, [e] + large)
  {
    if i :| TakenOut(small, large, i) {
      assert TakenOut([e] + small, [e] + large, i + 1);
    }
  }

  lemma WithoutOneShort(small: Cache, large: Cache, ip: string)
    requires OneShort(small, large) && Distinct(large)
    ensures OneShort(Without(small, ip), Without(large, ip))
    ensures Has(large, ip) && !Has(small, ip) ==> Without(small, ip) == Without(large, ip) == small
  {
    if i :| TakenOut(small, large, i) {
      TakenOutMembers(small, large, i);
      WithoutBoth(small, large, i, ip);
    }
  }

  /** Dropping the last entry of both keeps the relation, and so does dropping it from an equal smaller one only. */
  lemma DropLastOneShort(small: Cache, large: Cache)
    requires OneShort(small, large) && small != [] && large != []
    ensures |small| == |large| - 1 ==> OneShort(small[..|small| - 1], large[..|large| - 1])
    ensures small == large ==> OneShort(small[..|small| - 1], large)
  {
    if small == large {
      assert TakenOut(small[..|small| - 1], large, |large| - 1);
    } else {
      var i :| TakenOut(small, large, i);
      TakenOutMembers(small, large, i);
      if i == |large| - 1 {
        assert small == large[..|large| - 1];
        assert TakenOut(small[..|small| - 1], large[..|large| - 1], |large| - 2);
      } else {
        assert TakenOut(small[..|small| - 1], large[..|large| - 1], i);
      }
    }
  }

  lemma StepKeepsInclusion(k: nat, small: Cache, large: Cache, op: Op)
    requires k >= 1 && OneShort(small, large) && Distinct(large) && Distinct(small) && |small| <= k && |large| <= k + 1
    ensures OneShort(Apply(k, small, op), Apply(k + 1, large, op))
  {
    var ip := op.ip;
    WithoutOneShort(small, large, ip);
    if Has(small, ip) {
      SharedMac(small, large, ip);
    }
    SizesClose(small, large);
    match op
    case Invalidate(_) =>
    case Get(_) =>
      if Has(small, ip) {
        ConsOneShort(Entry(ip, Find(small, ip).value), Without(small, ip), Without(large, ip));
      } else if Has(large, ip) {
        var e := Entry(ip, Find(large, ip).value);
        assert TakenOut(small, [e] + small, 0);
      }
    case Put(_, mac) =>
      var e := Entry(ip, mac);
      if Has(small, ip) {
        ConsOneShort(e, Without(small, ip), Without(large, ip));
      } else if Has(large, ip) {
        PutIntoSmallOnly(k, small, e);
      } else if |small| == k {
        DropLastOneShort(small, large);
        ConsOneShort(e, small[..k - 1], if |large| == k + 1 then large[..k] else large);
      } else {
        ConsOneShort(e, small, large);
      }
  }

  /** The address is new to the smaller cache only: the larger one moves it to the front of what they share. */
  lemma PutIntoSmallOnly(k: nat, small: Cache, e: Entry)
    requires k >= 1 && |small| <= k
    ensures OneShort([e] + (if |small| >= k then small[..|small| - 1] else small), [e] + small)
  {
    if |small| >= k {
      assert TakenOut([e] + small[..|small| - 1], [e] + small, |small|);
    }
  }

  lemma SizesClose(small: Cache, large: Cache)
    requires OneShort(small, large)
    ensures |small| <= |large| <= |small| + 1
    ensures |small| == |large| ==> small == large
  {
    if i :| TakenOut(small, large, i) {
      TakenOutMembers(small, large, i);
    }
  }

  /** On every trace the cache of capacity k is the cache of capacity k + 1 with at most one entry taken out. */
  lemma {:induction false} NextCapacityIncludes(k: nat, trace: seq<Op>)
    requires k >= 1
    ensures OneShort(Run(k, trace), Run(k + 1, trace))
  {
    if trace != [] {
      var before, op := trace[..|trace| - 1], trace[|trace| - 1];
      NextCapacityIncludes(k, before);
      RunDistinct(k, before);
      RunDistinct(k + 1, before);
      StepKeepsInclusion(k, Run(k, before), Run(k + 1, before), op);
    }
  }

  /** A larger cache never misses where a smaller one hits, and answers with the same MAC address. */
  lemma {:induction false} LargerNeverMisses(j: nat, k: nat, trace: seq<Op>, ip: string)
    requires 1 <= j <= k && Has(Run(j, trace), ip)
    ensures Has(Run(k, trace), ip) && Find(Run(k, trace), ip) == Find(Run(j, trace), ip)
    decreases k
  {
    hide Run, Has, Find, OneShort, Distinct;
    if j < k {
      LargerNeverMisses(j, k - 1, trace, ip);
      NextCapacityIncludes(k - 1, trace);
      RunDistinct(k, trace);
      SharedMac(Run(k - 1, trace), Run(k, trace), ip);
    }
  }
}
