/** The ring buffer object: a bounded queue whose two sides may see each other's counter late. Each call takes effect at
    once; how late its load was is a parameter. */
module RingBuffer {
  import opened Bits
  import opened RingProtocol

  /** The distance from head to tail. */
  function Distance(head: nat, tail: nat): (n: nat)
    ensures n < WORD64
  {
    Minus(WORD64, tail, head)
  }

  lemma TailFromHead(head: nat, tail: nat)
    requires head < WORD64 && tail < WORD64
    ensures Wrap(WORD64, head + Distance(head, tail)) == tail
  {
    hide Pow2;
    SmallMod(WORD64, tail - head);
    if head + Distance(head, tail) >= WORD64 {
      DivModIs(head + Distance(head, tail), WORD64, 1, tail);
    } else {
      DivModIs(head + Distance(head, tail), WORD64, 0, tail);
    }
  }

  lemma DistanceIs(head: nat, n: nat)
    requires head < WORD64 && n < WORD64
    ensures Distance(head, Wrap(WORD64, head + n)) == n
  {
    hide Pow2;
    if head + n >= WORD64 {
      DivModIs(head + n, WORD64, 1, head + n - WORD64);
      SmallMod(WORD64, n - WORD64);
    } else {
      DivModIs(head + n, WORD64, 0, head + n);
      SmallMod(WORD64, n);
    }
  }

  lemma IncIsNext(x: nat, n: nat)
    ensures Inc(WORD64, Wrap(WORD64, x + n)) == Wrap(WORD64, x + (n + 1))
  {
    WrappedInc(WORD64, x + n);
    assert x + (n + 1) == x + n + 1;
  }

  /** The slot of the i-th item behind the head. */
  function SlotFrom(capacity: nat, head: nat, i: nat): (k: nat)
    requires capacity >= 1
    ensures k < capacity
  {
    SlotInRange(capacity, Wrap(WORD64, head + i));
    Slot(capacity, Wrap(WORD64, head + i))
  }

  class SpscRingBuffer<T(0)> {
    const capacity: nat
    const buffer: array<T>
    var head: nat
    var tail: nat

    ghost predicate Valid()
      reads this
    {
      && GoodCapacity(capacity) && buffer.Length == capacity
      && head < WORD64 && tail < WORD64 && Distance(head, tail) <= capacity
    }

    /** The queued items, oldest first. */
    ghost function Contents(): (s: seq<T>)
      requires Valid()
      reads this, buffer
      ensures |s| == Distance(head, tail)
      ensures forall i :: 0 <= i < |s| ==> s[i] == buffer[SlotFrom(capacity, head, i)]
    {
      seq(Distance(head, tail), i requires 0 <= i < Distance(head, tail) &&
        Valid() reads this, buffer => buffer[SlotFrom(capacity, head, i)])
    }

    constructor (capacity: nat)
      requires GoodCapacity(capacity)
      ensures Valid() && this.capacity == capacity && fresh(buffer) && Contents() == []
    {
      this.capacity := capacity;
      buffer := new T[capacity];
      head, tail := 0, 0;
      new;
      SmallMod(WORD64, 0);
    }

    /** Appends an item unless the ring looks full. The load of the head may be `behind` pops old; the ring then looks
        that much fuller. */
    method Push(item: T, behind: nat) returns (ok: bool)
      requires Valid() && |Contents()| + behind <= capacity
      modifies this`tail, buffer
      ensures Valid()
      ensures ok <==> |old(Contents())| + behind < capacity
      ensures Contents() == if ok then old(Contents()) + [item] else old(Contents())
    {
      hide Pow2, Slot, Wrap, Distance, GoodCapacity, Inc, Back;
      ghost var n := Distance(head, tail);
      GoodCapacityIs(capacity);
      TailFromHead(head, tail);
      StaleHead(head, n, behind);
      var currentTail, currentHead := tail, Back(head, behind);
      SameDistance(currentHead, currentTail);
      if Minus(WORD64, currentTail, currentHead) >= capacity {
        return false;
      }
      PushFacts(capacity, head, n);
      var k := Slot(capacity, currentTail);
      SlotInRange(capacity, currentTail);
      assert SlotFrom(capacity, head, n) == k;
      buffer[k] := item;
      tail := Inc(WORD64, currentTail);
      assert Distance(head, tail) == n + 1;
      assert Contents() == old(Contents()) + [item];
      return true;
    }

    /** Removes the oldest item unless the ring looks empty. The load of the tail may be `behind` pushes old; the ring
        then looks that much emptier. */
    method Pop(behind: nat) returns (ok: bool, item: T)
      requires Valid() && behind <= |Contents()|
      modifies this`head
      ensures Valid()
      ensures ok <==> |old(Contents())| > behind
      ensures ok ==> item == old(Contents())[0] && Contents() == old(Contents())[1..]
      ensures !ok ==> Contents() == old(Contents())
    {
      hide Pow2, Slot, Wrap, Distance, GoodCapacity, Inc, Back;
      ghost var n := Distance(head, tail);
      GoodCapacityIs(capacity);
      TailFromHead(head, tail);
      StaleTail(head, n, behind);
      var currentHead, currentTail := head, Back(tail, behind);
      EmptyIffEqual(currentHead, currentTail);
      SlotInRange(capacity, currentHead);
      if currentHead == currentTail {
        return false, buffer[0];
      }
      HeadWraps(head);
      PopFacts(head, tail);
      item := buffer[Slot(capacity, currentHead)];
      assert item == old(Contents())[0];
      head := Inc(WORD64, currentHead);
      forall i | 0 <= i < n - 1
        ensures Contents()[i] == old(Contents())[i + 1]
      {
        ShiftedSlot(capacity, old(head), i);
      }
      assert Contents() == old(Contents())[1..];
      return true, item;
    }
  }

  /** The counter value `behind` steps before `x`. */
  function Back(x: nat, behind: nat): (y: nat)
    ensures y < WORD64
  {
    (x - behind) % WORD64
  }

  /** Seen from a head that is `behind` pops old, the tail is that much further away. */
  lemma StaleHead(head: nat, n: nat, behind: nat)
    requires head < WORD64 && n + behind < WORD64
    ensures Distance(Back(head, behind), Wrap(WORD64, head + n)) == n + behind
  {
    hide Pow2;
    var seen := Back(head, behind);
    SmallMod(WORD64, head - behind);
    if head < behind {
      AddModulus(WORD64, head + n);
      assert seen + (n + behind) == WORD64 + (head + n);
    } else {
      assert seen + (n + behind) == head + n;
    }
    DistanceIs(seen, n + behind);
  }

  /** A tail that is `behind` pushes old is that much nearer to the head. */
  lemma StaleTail(head: nat, n: nat, behind: nat)
    requires head < WORD64 && behind <= n < WORD64
    ensures Distance(head, Back(Wrap(WORD64, head + n), behind)) == n - behind
  {
    hide Pow2;
    var tail := Wrap(WORD64, head + n);
    if head + n >= WORD64 {
      DivModIs(head + n, WORD64, 1, head + n - WORD64);
    } else {
      DivModIs(head + n, WORD64, 0, head + n);
    }
    SmallMod(WORD64, tail - behind);
    if head + (n - behind) >= WORD64 {
      DivModIs(head + (n - behind), WORD64, 1, head + (n - behind) - WORD64);
    } else {
      DivModIs(head + (n - behind), WORD64, 0, head + (n - behind));
    }
    DistanceIs(head, n - behind);
  }

  lemma SameDistance(head: nat, tail: nat)
    ensures Distance(head, tail) == Minus(WORD64, tail, head)
  {
  }

  lemma GoodCapacityIs(capacity: nat)
    requires GoodCapacity(capacity)
    ensures 1 <= capacity < WORD64
  {
  }

  /** What a push relies on: the tail's slot is none of the queued ones, and the distance grows by one. */
  lemma PushFacts(capacity: nat, head: nat, n: nat)
    requires GoodCapacity(capacity) && head < WORD64 && n < capacity
    ensures forall i: nat :: i < n ==> SlotFrom(capacity, head, i) != SlotFrom(capacity, head, n)
    ensures Inc(WORD64, Wrap(WORD64, head + n)) < WORD64
    ensures Distance(head, Inc(WORD64, Wrap(WORD64, head + n))) == n + 1
  {
    hide Pow2, Slot, Distance, Wrap;
    GoodCapacityIs(capacity);
    forall i: nat | i < n
      ensures SlotFrom(capacity, head, i) != SlotFrom(capacity, head, n)
    {
      WrappedSlot(capacity, head + i);
      WrappedSlot(capacity, head + n);
      SlotsDiffer(capacity, head + i, head + n);
    }
    IncIsNext(head, n);
    DistanceIs(head, n + 1);
    WrapInRange(head + (n + 1));
  }

  lemma WrapInRange(u: nat)
    ensures Wrap(WORD64, u) < WORD64
  {
  }

  lemma EmptyIffEqual(head: nat, tail: nat)
    requires head < WORD64 && tail < WORD64
    ensures Distance(head, tail) == 0 <==> head == tail
  {
    hide Pow2;
    SmallMod(WORD64, tail - head);
  }

  lemma HeadWraps(head: nat)
    requires head < WORD64
    ensures Wrap(WORD64, head + 0) == head
  {
    DivModIs(head, WORD64, 0, head);
  }

  lemma PopFacts(head: nat, tail: nat)
    requires head < WORD64 && tail < WORD64 && Distance(head, tail) > 0
    ensures Inc(WORD64, head) < WORD64 && Distance(Inc(WORD64, head), tail) == Distance(head, tail) - 1
  {
    var n := Distance(head, tail);
    var next := Inc(WORD64, head);
    TailFromHead(head, tail);
    HeadWraps(head);
    IncIsNext(head, 0);
    Rebase(head, n - 1);
    DistanceIs(next, n - 1);
  }

  /** Counting on from the incremented head is counting on from the head. */
  lemma Rebase(head: nat, i: nat)
    requires head < WORD64
    ensures Wrap(WORD64, Inc(WORD64, head) + i) == Wrap(WORD64, head + (i + 1))
  {
    hide Pow2;
    if head + 1 < WORD64 {
      DivModIs(head + 1, WORD64, 0, head + 1);
    } else {
      DivModIs(head + 1, WORD64, 1, 0);
      AddModulus(WORD64, i);
    }
  }

  lemma AddModulus(w: nat, i: nat)
    requires w >= 1
    ensures (w + i) % w == i % w
  {
    var q := i / w;
    assert w * (q + 1) == w * q + w;
    DivModIs(w + i, w, q + 1, i % w);
  }

  lemma ShiftedSlot(capacity: nat, head: nat, i: nat)
    requires capacity >= 1 && head < WORD64
    ensures SlotFrom(capacity, Inc(WORD64, head), i) == SlotFrom(capacity, head, i + 1)
  {
    hide Pow2, Slot, Wrap, Inc;
    Rebase(head, i);
  }
}
