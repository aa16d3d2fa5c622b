/** A bounded cache as a plain recency sequence: the most recently touched entry first. */
module Recency {
  import opened Common

  datatype Entry = Entry(ip: string, mac: string)

  type Cache = seq<Entry>

  datatype Op = Put(ip: string, mac: string) | Get(ip: string) | Invalidate(ip: string)

  predicate Has(c: Cache, ip: string) {
    exists i :: 0 <= i < |c| && c[i].ip == ip
  }

  lemma HasTail(c: Cache, ip: string)
    requires c != []
    ensures Has(c, ip) <==> c[0].ip == ip || Has(c[1..], ip)
  {
    if i :| 0 <= i < |c| && c[i].ip == ip && i > 0 {
      assert c[1..][i - 1].ip == ip;
    }
    if i :| 0 <= i < |c[1..]| && c[1..][i].ip == ip {
      assert c[i + 1].ip == ip;
    }
  }

  /** The MAC address stored for an address. */
  function Find(c: Cache, ip: string): (r: Option<string>)
    ensures r.Some? <==> Has(c, ip)
    ensures r.Some? ==> Entry(ip, r.value) in c
  {
    if c == [] then None
    else if c[0].ip == ip then Some(c[0].mac)
    else HasTail(c, ip); Find(c[1..], ip)
  }

  /** The cache without the entry for an address. */
  function Without(c: Cache, ip: string): (r: Cache)
    ensures |r| <= |c|
  {
    if c == [] then [] else (if c[0].ip == ip then [] else [c[0]]) + Without(c[1..], ip)
  }

  /** An entry at the front, in place of any entry for the same address. */
  function ToFront(c: Cache, e: Entry): Cache {
    [e] + Without(c, e.ip)
  }

  function AfterGet(c: Cache, ip: string): Cache {
    var found := Find(c, ip);
    if found.Some? then ToFront(c, Entry(ip, found.value)) else c
  }

  function AfterPut(capacity: nat, c: Cache, ip: string, mac: string): Cache
    requires capacity >= 1
  {
    if Find(c, ip).Some? then ToFront(c, Entry(ip, mac))
    else [Entry(ip, mac)] + (if |c| >= capacity then c[..|c| - 1] else c)
  }

  function Apply(capacity: nat, c: Cache, op: Op): Cache
    requires capacity >= 1
  {
    match op
    case Put(ip, mac) => AfterPut(capacity, c, ip, mac)
    case Get(ip) => AfterGet(c, ip)
    case Invalidate(ip) => Without(c, ip)
  }

  /** The cache after a trace of operations from empty. */
  function Run(capacity: nat, trace: seq<Op>): Cache
    requires capacity >= 1
  {
    if trace == [] then [] else Apply(capacity, Run(capacity, trace[..|trace| - 1]), trace[|trace| - 1])
  }

  predicate Distinct(c: Cache) {
    forall i, j :: 0 <= i < j < |c| ==> c[i].ip != c[j].ip
  }

  lemma {:induction false} WithoutAbsent(c: Cache, ip: string)
    requires !Has(c, ip)
    ensures Without(c, ip) == c
  {
    if c != [] {
      HasTail(c, ip);
      WithoutAbsent(c[1..], ip);
    }
  }

  /** In a cache without duplicates, removing an address removes exactly its entry. */
  lemma {:induction false} WithoutAt(c: Cache, ip: string, i: nat)
    requires Distinct(c) && i < |c| && c[i].ip == ip
    ensures Without(c, ip) == c[..i] + c[i + 1..]
  {
    var rest := c[1..];
    if i == 0 {
      assert !Has(rest, ip);
      WithoutAbsent(rest, ip);
    } else {
      WithoutAt(rest, ip, i - 1);
      assert c[..i] + c[i + 1..] == [c[0]] + (rest[..i - 1] + rest[i..]);
    }
  }

  lemma RemovedFacts(c: Cache, i: nat)
    requires Distinct(c) && i < |c|
    ensures var r := c[..i] + c[i + 1..];
      Distinct(r) && !Has(r, c[i].ip) && forall e :: e in r <==> e in c && e.ip != c[i].ip
  {
    var r := c[..i] + c[i + 1..];
    forall e | e in c && e.ip != c[i].ip
      ensures e in r
    {
      var j :| 0 <= j < |c| && c[j] == e;
      assert r[if j < i then j else j - 1] == e;
    }
  }

  lemma WithoutFacts(c: Cache, ip: string)
    requires Distinct(c)
    ensures Distinct(Without(c, ip)) && !Has(Without(c, ip), ip)
    ensures |Without(c, ip)| == if Has(c, ip) then |c| - 1 else |c|
    ensures forall e :: e in Without(c, ip) <==> e in c && e.ip != ip
  {
    if i: nat :| i < |c| && c[i].ip == ip {
      WithoutAt(c, ip, i);
      RemovedFacts(c, i);
    } else {
      WithoutAbsent(c, ip);
    }
  }

  lemma ApplyDistinct(capacity: nat, c: Cache, op: Op)
    requires capacity >= 1 && Distinct(c) && |c| <= capacity
    ensures Distinct(Apply(capacity, c, op)) && |Apply(capacity, c, op)| <= capacity
  {
    hide Distinct, Has, Find;
    var ip := op.ip;
    WithoutFacts(c, ip);
    match op
    case Invalidate(_) =>
    case Get(_) =>
      if Find(c, ip).Some? {
        ConsDistinct(Entry(ip, Find(c, ip).value), Without(c, ip));
      }
    case Put(_, mac) =>
      if Find(c, ip).Some? {
        ConsDistinct(Entry(ip, mac), Without(c, ip));
      } else if |c| >= capacity {
        PrefixDistinct(c, |c| - 1, ip);
        ConsDistinct(Entry(ip, mac), c[..|c| - 1]);
      } else {
        ConsDistinct(Entry(ip, mac), c);
      }
  }

  lemma ConsDistinct(e: Entry, rest: Cache)
    requires Distinct(rest) && !Has(rest, e.ip)
    ensures Distinct([e] + rest)
  {
  }

  lemma PrefixDistinct(c: Cache, n: nat, ip: string)
    requires Distinct(c) && !Has(c, ip) && n <= |c|
    ensures Distinct(c[..n]) && !Has(c[..n], ip)
  {
  }

  /** The cache never holds two entries for one address nor more entries than its capacity. */
  lemma {:induction false} RunDistinct(capacity: nat, trace: seq<Op>)
    requires capacity >= 1
    ensures Distinct(Run(capacity, trace)) && |Run(capacity, trace)| <= capacity
  {
    if trace != [] {
      RunDistinct(capacity, trace[..|trace| - 1]);
      ApplyDistinct(capacity, Run(capacity, trace[..|trace| - 1]), trace[|trace| - 1]);
    }
  }

  /** The MAC address of the last put for an address. */
  function LastPut(trace: seq<Op>, ip: string): Option<string> {
    if trace == [] then None
    else
      var last := trace[|trace| - 1];
      if last.Put? && last.ip == ip then Some(last.mac) else LastPut(trace[..|trace| - 1], ip)
  }

  /** When an address was last put or asked for; 0 if never. */
  function LastTouch(trace: seq<Op>, ip: string): (t: nat)
    ensures t <= |trace|
  {
    if trace == [] then 0
    else
      var last := trace[|trace| - 1];
      if !last.Invalidate? && last.ip == ip then |trace| else LastTouch(trace[..|trace| - 1], ip)
  }

  ghost predicate FreshMacs(c: Cache, trace: seq<Op>) {
    forall e :: e in c ==> LastPut(trace, e.ip) == Some(e.mac)
  }

  ghost predicate ByRecency(c: Cache, trace: seq<Op>) {
    forall i, j :: 0 <= i < j < |c| ==> LastTouch(trace, c[i].ip) > LastTouch(trace, c[j].ip)
  }

  /** A hit returns the MAC address last put for the address. */
  lemma {:induction false} HitReturnsLastPut(capacity: nat, trace: seq<Op>)
    requires capacity >= 1
    ensures FreshMacs(Run(capacity, trace), trace)
  {
    if trace != [] {
      var before, op := trace[..|trace| - 1], trace[|trace| - 1];
      var c, c' := Run(capacity, before), Run(capacity, trace);
      HitReturnsLastPut(capacity, before);
      RunDistinct(capacity, before);
      WithoutFacts(c, op.ip);
      forall e | e in c'
        ensures LastPut(trace, e.ip) == Some(e.mac)
      {
        if op.Put? && e.ip == op.ip {
          assert e == Entry(op.ip, op.mac);
        } else {
          assert e in c;
        }
      }
    }
  }

  lemma RemovalKeepsOrder(c: Cache, i: nat, trace: seq<Op>)
    requires ByRecency(c, trace) && i < |c|
    ensures ByRecency(c[..i] + c[i + 1..], trace)
  {
  }

  lemma WithoutKeepsOrder(c: Cache, ip: string, trace: seq<Op>)
    requires Distinct(c) && ByRecency(c, trace)
    ensures ByRecency(Without(c, ip), trace)
  {
    if i: nat :| i < |c| && c[i].ip == ip {
      WithoutAt(c, ip, i);
      RemovalKeepsOrder(c, i, trace);
    } else {
      WithoutAbsent(c, ip);
    }
  }

  lemma Snoc(before: seq<Op>, op: Op)
    ensures (before + [op])[..|before|] == before && (before + [op])[|before|] == op
  {
  }

  /** A touch puts its address ahead of all others. */
  lemma TouchComesFirst(rest: Cache, e: Entry, before: seq<Op>, op: Op)
    requires ByRecency(rest, before) && !Has(rest, op.ip) && !op.Invalidate? && op.ip == e.ip
    ensures ByRecency([e] + rest, before + [op])
  {
    Snoc(before, op);
    assert forall i :: 0 <= i < |rest| ==> rest[i].ip != op.ip;
  }

  lemma UntouchedKeepsOrder(c: Cache, before: seq<Op>, op: Op)
    requires ByRecency(c, before) && (!Has(c, op.ip) || op.Invalidate?)
    ensures ByRecency(c, before + [op])
  {
    Snoc(before, op);
    assert !op.Invalidate? ==> forall i :: 0 <= i < |c| ==> c[i].ip != op.ip;
  }

  lemma ApplyKeepsOrder(capacity: nat, c: Cache, before: seq<Op>, op: Op)
    requires capacity >= 1 && Distinct(c) && ByRecency(c, before)
    ensures ByRecency(Apply(capacity, c, op), before + [op])
  {
    hide ByRecency;
    WithoutFacts(c, op.ip);
    WithoutKeepsOrder(c, op.ip, before);
    var rest := Without(c, op.ip);
    match op
    case Invalidate(ip) => UntouchedKeepsOrder(rest, before, op);
    case Get(ip) =>
      var found := Find(c, ip);
      if found.Some? {
        TouchComesFirst(rest, Entry(ip, found.value), before, op);
      } else {
        UntouchedKeepsOrder(c, before, op);
      }
    case Put(ip, mac) =>
      var e := Entry(ip, mac);
      if Find(c, ip).Some? {
        TouchComesFirst(rest, e, before, op);
      } else if |c| >= capacity && c != [] {
        RemovalKeepsOrder(c, |c| - 1, before);
        assert c[..|c| - 1] + c[|c|..] == c[..|c| - 1];
        TouchComesFirst(c[..|c| - 1], e, before, op);
      } else {
        TouchComesFirst(c, e, before, op);
      }
  }

  /** The sequence is ordered by last touch, so an eviction takes the least recently touched address. */
  lemma {:induction false} OrderedByRecency(capacity: nat, trace: seq<Op>)
    requires capacity >= 1
    ensures ByRecency(Run(capacity, trace), trace)
  {
    if trace != [] {
      var before, op := trace[..|trace| - 1], trace[|trace| - 1];
      OrderedByRecency(capacity, before);
      RunDistinct(capacity, before);
      ApplyKeepsOrder(capacity, Run(capacity, before), before, op);
      assert before + [op] == trace;
    }
  }

  /** Every other entry was touched after this one. */
  ghost predicate LeastRecent(c: Cache, trace: seq<Op>, victim: Entry) {
    victim in c && forall e :: e in c && e != victim ==> LastTouch(trace, e.ip) > LastTouch(trace, victim.ip)
  }

  lemma LastIsLeastRecent(c: Cache, trace: seq<Op>)
    requires c != [] && ByRecency(c, trace)
    ensures LeastRecent(c, trace, c[|c| - 1])
  {
    forall e | e in c && e != c[|c| - 1]
      ensures LastTouch(trace, e.ip) > LastTouch(trace, c[|c| - 1].ip)
    {
      var i :| 0 <= i < |c| && c[i] == e;
    }
  }

  /** A put of a new address into a full cache drops exactly one entry: the least recently touched one. */
  lemma EvictsLeastRecent(capacity: nat, trace: seq<Op>, ip: string, mac: string)
    requires capacity >= 1 && !Has(Run(capacity, trace), ip) && |Run(capacity, trace)| >= capacity
    ensures var c := Run(capacity, trace);
      var victim := c[|c| - 1];
      && LeastRecent(c, trace, victim)
      && forall e :: e in AfterPut(capacity, c, ip, mac) <==> (e in c && e != victim) || e == Entry(ip, mac)
  {
    var c := Run(capacity, trace);
    RunDistinct(capacity, trace);
    OrderedByRecency(capacity, trace);
    LastIsLeastRecent(c, trace);
    hide Run, LeastRecent, ByRecency, Find;
    var front, victim := c[..|c| - 1], c[|c| - 1];
    assert c == front + [victim];
    assert victim !in front;
  }

  /** A put of a new address into a cache with room drops nothing. */
  lemma PutIntoRoom(capacity: nat, c: Cache, ip: string, mac: string)
    requires capacity >= 1 && !Has(c, ip) && |c| < capacity
    ensures forall e :: e in Apply(capacity, c, Put(ip, mac)) <==> e in c || e == Entry(ip, mac)
    ensures |Apply(capacity, c, Put(ip, mac))| == |c| + 1
  {
    hide Has;
  }

  /** A put of an address that is held replaces its entry and keeps all others. */
  lemma PutUpdates(capacity: nat, c: Cache, ip: string, mac: string)
    requires capacity >= 1 && Distinct(c) && Has(c, ip)
    ensures forall e :: e in Apply(capacity, c, Put(ip, mac)) <==> (e in c && e.ip != ip) || e == Entry(ip, mac)
  {
    hide Has, Distinct;
    WithoutFacts(c, ip);
  }

  /** A lookup drops nothing and adds nothing. */
  lemma GetKeepsEntries(capacity: nat, c: Cache, ip: string)
    requires capacity >= 1 && Distinct(c)
    ensures forall e :: e in Apply(capacity, c, Get(ip)) <==> e in c
  {
    WithoutFacts(c, ip);
  }

  /** Invalidating an address removes its entry and no other. */
  lemma InvalidateRemoves(capacity: nat, c: Cache, ip: string)
    requires capacity >= 1 && Distinct(c)
    ensures !Has(Apply(capacity, c, Invalidate(ip)), ip)
    ensures forall e :: e in Apply(capacity, c, Invalidate(ip)) <==> e in c && e.ip != ip
  {
    WithoutFacts(c, ip);
  }

  /** The addresses of a set without the one touched longest ago. */
  function ExceptOldest(trace: seq<Op>, s: set<string>): set<string> {
    set x | x in s && exists y :: y in s && LastTouch(trace, y) < LastTouch(trace, x)
  }

  /** Which addresses are held after a trace, told by sets and times of touch alone: those put and not invalidated
      since, but a put of a new address while `capacity` are held drops the one touched longest ago. */
  function Held(capacity: nat, trace: seq<Op>): set<string> {
    if trace == [] then {}
    else
      var before, front := Held(capacity, trace[..|trace| - 1]), trace[..|trace| - 1];
      match trace[|trace| - 1]
      case Get(_) => before
      case Invalidate(ip) => before - {ip}
      case Put(ip, _) =>
        (if ip in before || |before| < capacity then before else ExceptOldest(front, before)) + {ip}
  }

  function Addresses(c: Cache): set<string> {
    set e | e in c :: e.ip
  }

  lemma HasIsIn(c: Cache, ip: string)
    ensures Has(c, ip) <==> ip in Addresses(c)
  {
    if i :| 0 <= i < |c| && c[i].ip == ip {
      assert c[i] in c;
    }
    if ip in Addresses(c) {
      var e :| e in c && e.ip == ip;
      var i :| 0 <= i < |c| && c[i] == e;
    }
  }

  lemma {:induction false} AddressCount(c: Cache)
    requires Distinct(c)
    ensures |Addresses(c)| == |c|
  {
    if c != [] {
      var front, last := c[..|c| - 1], c[|c| - 1];
      AddressCount(front);
      assert c == front + [last];
      assert Addresses(c) == Addresses(front) + {last.ip};
      assert last.ip !in Addresses(front);
    }
  }

  lemma EarlierIsNotOldest(c: Cache, trace: seq<Op>, i: nat)
    requires i < |c| - 1 && ByRecency(c, trace)
    ensures c[i].ip in ExceptOldest(trace, Addresses(c))
  {
    hide LastTouch;
    var last := c[|c| - 1];
    assert c[i] in c && last in c;
    assert LastTouch(trace, last.ip) < LastTouch(trace, c[i].ip);
    assert last.ip in Addresses(c) && c[i].ip in Addresses(c);
  }

  lemma LastIsOldest(c: Cache, trace: seq<Op>)
    requires c != [] && ByRecency(c, trace)
    ensures c[|c| - 1].ip !in ExceptOldest(trace, Addresses(c))
  {
    hide LastTouch;
    forall y | y in Addresses(c)
      ensures LastTouch(trace, y) >= LastTouch(trace, c[|c| - 1].ip)
    {
      var e :| e in c && e.ip == y;
      var i :| 0 <= i < |c| && c[i] == e;
    }
  }

  /** In a cache ordered by last touch, all but the last entry are all but the one touched longest ago. */
  lemma FrontIsExceptOldest(c: Cache, trace: seq<Op>)
    requires c != [] && ByRecency(c, trace)
    ensures Addresses(c[..|c| - 1]) == ExceptOldest(trace, Addresses(c))
  {
    hide ByRecency, LastTouch;
    var front := c[..|c| - 1];
    LastIsOldest(c, trace);
    forall i: nat | i < |front|
      ensures front[i] == c[i] && front[i] in front && c[i].ip in ExceptOldest(trace, Addresses(c))
    {
      EarlierIsNotOldest(c, trace, i);
    }
    hide ExceptOldest;
    ExceptOldestIsSubset(trace, Addresses(c));
    forall x | x in ExceptOldest(trace, Addresses(c))
      ensures x in Addresses(front)
    {
      var e :| e in c && e.ip == x;
      var i: nat :| i < |c| && c[i] == e;
      assert i < |front|;
    }
    forall x | x in Addresses(front)
      ensures x in ExceptOldest(trace, Addresses(c))
    {
      var e :| e in front && e.ip == x;
      var i: nat :| i < |front| && front[i] == e;
    }
  }

  lemma ExceptOldestIsSubset(trace: seq<Op>, s: set<string>)
    ensures ExceptOldest(trace, s) <= s
  {
  }

  lemma AddressesAfter(capacity: nat, c: Cache, before: seq<Op>, op: Op)
    requires capacity >= 1 && Distinct(c) && ByRecency(c, before)
    ensures Addresses(Apply(capacity, c, op)) ==
      match op
      case Get(_) => Addresses(c)
      case Invalidate(ip) => Addresses(c) - {ip}
      case Put(ip, _) =>
        var kept := if ip in Addresses(c) || |c| < capacity then Addresses(c) else ExceptOldest(before, Addresses(c));
        kept + {ip}
  {
    hide ByRecency, Has, ExceptOldest, Distinct, Find;
    HasIsIn(c, op.ip);
    match op
    case Get(ip) => GetKeepsEntries(capacity, c, ip);
    case Invalidate(ip) => InvalidateRemoves(capacity, c, ip);
    case Put(ip, mac) =>
      var e := Entry(ip, mac);
      if Has(c, ip) {
        PutUpdates(capacity, c, ip, mac);
        ReplacedAddresses(c, Apply(capacity, c, op), e);
      } else if |c| < capacity {
        AddedAddress(c, e);
      } else {
        FrontIsExceptOldest(c, before);
        AddedAddress(c[..|c| - 1], e);
      }
  }

  lemma AddedAddress(c: Cache, e: Entry)
    ensures Addresses([e] + c) == Addresses(c) + {e.ip}
  {
    assert e in [e] + c;
    assert forall f :: f in c ==> f in [e] + c;
  }

  lemma ReplacedAddresses(c: Cache, c': Cache, e: Entry)
    requires e.ip in Addresses(c) && forall f :: f in c' <==> (f in c && f.ip != e.ip) || f == e
    ensures Addresses(c') == Addresses(c) + {e.ip}
  {
    forall x | x in Addresses(c)
      ensures x in Addresses(c')
    {
      var f :| f in c && f.ip == x;
      assert if x == e.ip then e in c' else f in c';
    }
  }

  /** The exact contents: after every trace the cache holds precisely those addresses. */
  lemma {:induction false} HeldExactly(capacity: nat, trace: seq<Op>)
    requires capacity >= 1
    ensures Addresses(Run(capacity, trace)) == Held(capacity, trace)
    ensures |Run(capacity, trace)| == |Held(capacity, trace)|
    ensures forall ip :: Has(Run(capacity, trace), ip) <==> ip in Held(capacity, trace)
  {
    if trace != [] {
      var before, op := trace[..|trace| - 1], trace[|trace| - 1];
      HeldExactly(capacity, before);
      RunDistinct(capacity, before);
      OrderedByRecency(capacity, before);
      AddressesAfter(capacity, Run(capacity, before), before, op);
    }
    RunDistinct(capacity, trace);
    AddressCount(Run(capacity, trace));
    forall ip
      ensures Has(Run(capacity, trace), ip) <==> ip in Held(capacity, trace)
    {
      HasIsIn(Run(capacity, trace), ip);
    }
  }
}
