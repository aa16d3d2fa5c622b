/** The single-producer single-consumer ring as a protocol of atomic steps.

    `headLog` and `tailLog` are the modification orders of the two counters. Each side reads its own counter exactly
    and may read the other one stale, but never older than what it has read before (`headView`, `tailView`).
    The counters are words of `w` values that wrap around; `w == 0` stands for unbounded counters. */
module RingProtocol {
  import opened Bits
  import opened Common

  datatype Producer<T> =
    | Resting
    | LoadedTail(item: T, tail: nat)
    | LoadedHead(item: T, tail: nat, head: nat)
    | Written(item: T, tail: nat)

  datatype Consumer<T> =
    | Waiting
    | HeadLoaded(head: nat)
    | TailLoaded(head: nat, tail: nat)
    | Taken(head: nat, item: T)

  datatype Outcome<T> = Pushed(ok: bool) | Popped(item: T) | Nothing

  datatype Ring<T> = Ring(
    slots: seq<T>, headLog: seq<nat>, tailLog: seq<nat>, headView: nat, tailView: nat,
    producer: Producer<T>, consumer: Consumer<T>,
    pushed: seq<T>, popped: seq<T>, outcomes: seq<Outcome<T>>, used: seq<nat>)

  datatype Action<T> =
    | PushStart(item: T) | PushLoadHead(i: nat) | PushFull | PushWrite | PushStore
    | PopStart | PopLoadTail(i: nat) | PopEmpty | PopRead | PopStore

  /** The counter after one more store. */
  function Inc(w: nat, x: nat): nat {
    if w == 0 then x + 1 else (x + 1) % w
  }

  /** The distance between two counters, as unsigned subtraction computes it. */
  function Minus(w: nat, a: nat, b: nat): int {
    if w == 0 then a - b else (a - b) % w
  }

  /** The slot of a counter value: its low bits. */
  function Slot(capacity: nat, x: nat): nat
    requires capacity >= 1
  {
    BitAnd(x, capacity - 1)
  }

  function Fresh<T>(slots: seq<T>): Ring<T> {
    Ring(slots, [0], [0], 0, 0, Resting, Waiting, [], [], [], [])
  }

  ghost predicate WellFormed<T>(capacity: nat, s: Ring<T>) {
    capacity >= 1 && |s.slots| == capacity && s.headLog != [] && s.tailLog != []
  }

  predicate Full<T>(w: nat, capacity: nat, p: Producer<T>)
    requires p.LoadedHead?
  {
    Minus(w, p.tail, p.head) >= capacity
  }

  /** Whether a step can be taken. */
  ghost predicate Enabled<T(!new)>(w: nat, capacity: nat, s: Ring<T>, a: Action<T>)
    requires WellFormed(capacity, s)
  {
    match a
    case PushStart(_) => s.producer.Resting?
    case PushLoadHead(i) => s.producer.LoadedTail? && s.headView <= i < |s.headLog|
    case PushFull => s.producer.LoadedHead? && Full(w, capacity, s.producer)
    case PushWrite => s.producer.LoadedHead? && !Full(w, capacity, s.producer)
    case PushStore => s.producer.Written?
    case PopStart => s.consumer.Waiting?
    case PopLoadTail(i) => s.consumer.HeadLoaded? && s.tailView <= i < |s.tailLog|
    case PopEmpty => s.consumer.TailLoaded? && s.consumer.head == s.consumer.tail
    case PopRead => s.consumer.TailLoaded? && s.consumer.head != s.consumer.tail
    case PopStore => s.consumer.Taken?
  }

  lemma SlotInRange(capacity: nat, x: nat)
    requires capacity >= 1
    ensures Slot(capacity, x) < capacity
  {
  }

  /** The state after a step. */
  ghost function Do<T(!new)>(w: nat, capacity: nat, s: Ring<T>, a: Action<T>): (s': Ring<T>)
    requires WellFormed(capacity, s) && Enabled(w, capacity, s, a)
    ensures WellFormed(capacity, s')
  {
    match a
    case PushStart(x) => s.(producer := LoadedTail(x, Last(s.tailLog)))
    case PushLoadHead(i) => s.(producer := LoadedHead(s.producer.item, s.producer.tail, s.headLog[i]), headView := i)
    case PushFull => s.(producer := Resting, outcomes := s.outcomes + [Pushed(false)])
    case PushWrite =>
      var k := Slot(capacity, s.producer.tail);
      s.(producer := Written(s.producer.item, s.producer.tail), slots := s.slots[k := s.producer.item],
        used := s.used + [k])
    case PushStore =>
      s.(producer := Resting, tailLog := s.tailLog + [Inc(w, s.producer.tail)],
         pushed := s.pushed + [s.producer.item], outcomes := s.outcomes + [Pushed(true)])
    case PopStart => s.(consumer := HeadLoaded(Last(s.headLog)))
    case PopLoadTail(i) => s.(consumer := TailLoaded(s.consumer.head, s.tailLog[i]), tailView := i)
    case PopEmpty => s.(consumer := Waiting, outcomes := s.outcomes + [Nothing])
    case PopRead =>
      var k := Slot(capacity, s.consumer.head);
      s.(consumer := Taken(s.consumer.head, s.slots[k]), used := s.used + [k])
    case PopStore =>
      s.(consumer := Waiting, headLog := s.headLog + [Inc(w, s.consumer.head)],
         popped := s.popped + [s.consumer.item], outcomes := s.outcomes + [Popped(s.consumer.item)])
  }

  /** A run from a fresh ring: every action is enabled when its turn comes. */
  ghost predicate CanRun<T(!new)>(w: nat, capacity: nat, slots: seq<T>, actions: seq<Action<T>>)
    requires capacity >= 1 && |slots| == capacity
    decreases |actions|, 0
  {
    actions == [] ||
    (CanRun(w, capacity, slots, actions[..|actions| - 1])
     && Enabled(w, capacity, After(w, capacity, slots, actions[..|actions| - 1]), actions[|actions| - 1]))
  }

  ghost function After<T(!new)>(w: nat, capacity: nat, slots: seq<T>, actions: seq<Action<T>>): (s: Ring<T>)
    requires capacity >= 1 && |slots| == capacity && CanRun(w, capacity, slots, actions)
    ensures WellFormed(capacity, s)
    decreases |actions|, 1
  {
    if actions == [] then Fresh(slots)
    else Do(w, capacity, After(w, capacity, slots, actions[..|actions| - 1]), actions[|actions| - 1])
  }

  /** The capacity the ring's static assertion asks for, and small enough for a word. */
  ghost predicate GoodCapacity(capacity: nat) {
    capacity >= 1 && BitAnd(capacity, capacity - 1) == 0 && capacity < WORD64
  }

  lemma SlotIsRemainder(capacity: nat, x: nat)
    requires GoodCapacity(capacity)
    ensures Slot(capacity, x) == x % capacity
  {
    PowerOfTwoTest(capacity);
    var k: nat :| capacity == Pow2(k);
    AndLowMask(x, k);
  }

  /** Counters less than one capacity apart have different slots. */
  lemma SlotsDiffer(capacity: nat, a: nat, b: nat)
    requires GoodCapacity(capacity) && a < b < a + capacity
    ensures Slot(capacity, a) != Slot(capacity, b)
  {
    SlotIsRemainder(capacity, a);
    SlotIsRemainder(capacity, b);
    RemaindersDiffer(capacity, a, b);
  }

  /** What every reachable state of the ring with unbounded counters satisfies. */
  ghost predicate Inv<T(!new)>(capacity: nat, s: Ring<T>) {
    && WellFormed(capacity, s)
    && (forall i :: 0 <= i < |s.headLog| ==> s.headLog[i] == i)
    && (forall i :: 0 <= i < |s.tailLog| ==> s.tailLog[i] == i)
    && var head, tail := |s.headLog| - 1, |s.tailLog| - 1;
    && s.headView <= head <= s.tailView <= tail <= s.headView + capacity
    && |s.pushed| == tail && s.popped == s.pushed[..head]
    && Stored(capacity, s)
    && ProducerOk(capacity, s) && ConsumerOk(s)
  }

  /** Every unread slot holds the item pushed at its counter. */
  ghost predicate Stored<T(!new)>(capacity: nat, s: Ring<T>)
    requires WellFormed(capacity, s)
  {
    forall i :: |s.headLog| - 1 <= i < |s.pushed| ==> s.slots[Slot(capacity, i)] == s.pushed[i]
  }

  ghost predicate ProducerOk<T(!new)>(capacity: nat, s: Ring<T>)
    requires WellFormed(capacity, s)
  {
    var tail := |s.tailLog| - 1;
    match s.producer
    case Resting => true
    case LoadedTail(_, t) => t == tail
    case LoadedHead(_, t, h) => t == tail && h == s.headView
    case Written(x, t) => t == tail && tail - s.headView < capacity && s.slots[Slot(capacity, tail)] == x
  }

  ghost predicate ConsumerOk<T(!new)>(s: Ring<T>)
    requires s.headLog != []
  {
    var head := |s.headLog| - 1;
    match s.consumer
    case Waiting => true
    case HeadLoaded(h) => h == head
    case TailLoaded(h, t) => h == head && t == s.tailView
    case Taken(h, x) => h == head < s.tailView && head < |s.pushed| && x == s.pushed[head]
  }

  lemma WriteKeepsInv<T(!new)>(capacity: nat, s: Ring<T>)
    requires GoodCapacity(capacity) && Inv(capacity, s) && Enabled(0, capacity, s, PushWrite)
    ensures Inv(capacity, Do(0, capacity, s, PushWrite))
  {
    hide GoodCapacity;
    var tail := |s.tailLog| - 1;
    SlotInRange(capacity, tail);
    forall i | |s.headLog| - 1 <= i < |s.pushed|
      ensures Slot(capacity, i) != Slot(capacity, tail)
    {
      SlotsDiffer(capacity, i, tail);
    }
  }

  predicate IsPush<T>(a: Action<T>) {
    a.PushStart? || a.PushLoadHead? || a.PushFull? || a.PushWrite? || a.PushStore?
  }

  lemma PushKeepsInv<T(!new)>(capacity: nat, s: Ring<T>, a: Action<T>)
    requires GoodCapacity(capacity) && Inv(capacity, s) && Enabled(0, capacity, s, a) && IsPush(a)
    ensures Inv(capacity, Do(0, capacity, s, a))
  {
    if a.PushWrite? {
      WriteKeepsInv(capacity, s);
    } else {
      hide GoodCapacity, Slot, ConsumerOk;
      var s' := Do(0, capacity, s, a);
      assert ConsumerOk(s') by { SameConsumer(capacity, s, a); }
    }
  }

  /** A push step changes nothing the consumer's side depends on. */
  lemma SameConsumer<T(!new)>(capacity: nat, s: Ring<T>, a: Action<T>)
    requires WellFormed(capacity, s) && Enabled(0, capacity, s, a) && IsPush(a) && ConsumerOk(s)
    ensures ConsumerOk(Do(0, capacity, s, a))
  {
    hide Slot, Full;
  }

  lemma PopKeepsInv<T(!new)>(capacity: nat, s: Ring<T>, a: Action<T>)
    requires GoodCapacity(capacity) && Inv(capacity, s) && Enabled(0, capacity, s, a) && !IsPush(a)
    ensures Inv(capacity, Do(0, capacity, s, a))
  {
    hide GoodCapacity, Slot, Full;
    assert ProducerOk(capacity, Do(0, capacity, s, a));
  }

  lemma {:induction false} InvOnRuns<T(!new)>(capacity: nat, slots: seq<T>, actions: seq<Action<T>>)
    requires GoodCapacity(capacity) && |slots| == capacity && CanRun(0, capacity, slots, actions)
    ensures Inv(capacity, After(0, capacity, slots, actions))
    decreases actions
  {
    if actions != [] {
      var front := actions[..|actions| - 1];
      InvOnRuns(capacity, slots, front);
      hide Enabled, Do, GoodCapacity, Inv;
      var s, a := After(0, capacity, slots, front), actions[|actions| - 1];
      if IsPush(a) {
        PushKeepsInv(capacity, s, a);
      } else {
        PopKeepsInv(capacity, s, a);
      }
    }
  }

  // ----- wrapping counters

  /** The word an unbounded counter is kept in. */
  function Wrap(w: nat, u: nat): nat
    requires w >= 1
  {
    u % w
  }

  ghost predicate LogsMatch(w: nat, wrapped: seq<nat>, unbounded: seq<nat>)
    requires w >= 1
  {
    |wrapped| == |unbounded| && forall i :: 0 <= i < |wrapped| ==> wrapped[i] == Wrap(w, unbounded[i])
  }

  /** The producer's and the consumer's loaded counters agree modulo the word. */
  ghost predicate SidesMatch<T(!new)>(w: nat, s: Ring<T>, u: Ring<T>)
    requires w >= 1
  {
    && (match (s.producer, u.producer)
        case (Resting, Resting) => true
        case (LoadedTail(x, t), LoadedTail(x', t')) => x == x' && t == Wrap(w, t')
        case (LoadedHead(x, t, h), LoadedHead(x', t', h')) => x == x' && t == Wrap(w, t') && h == Wrap(w, h')
        case (Written(x, t), Written(x', t')) => x == x' && t == Wrap(w, t')
        case _ => false)
    && (match (s.consumer, u.consumer)
        case (Waiting, Waiting) => true
        case (HeadLoaded(h), HeadLoaded(h')) => h == Wrap(w, h')
        case (TailLoaded(h, t), TailLoaded(h', t')) => h == Wrap(w, h') && t == Wrap(w, t')
        case (Taken(h, x), Taken(h', x')) => h == Wrap(w, h') && x == x'
        case _ => false)
  }

  /** Everything but the counters is the same, and the counters agree modulo the word. */
  ghost predicate Matches<T(!new)>(w: nat, s: Ring<T>, u: Ring<T>)
    requires w >= 1
  {
    && s.slots == u.slots && s.headView == u.headView && s.tailView == u.tailView
    && s.pushed == u.pushed && s.popped == u.popped && s.outcomes == u.outcomes && s.used == u.used
    && LogsMatch(w, s.headLog, u.headLog) && LogsMatch(w, s.tailLog, u.tailLog)
    && SidesMatch(w, s, u)
  }

  lemma WrappedInc(w: nat, u: nat)
    requires w >= 1
    ensures Inc(w, Wrap(w, u)) == Wrap(w, Inc(0, u))
  {
    var q, r := u / w, u % w;
    if r + 1 < w {
      DivModIs(r + 1, w, 0, r + 1);
      DivModIs(u + 1, w, q, r + 1);
    } else {
      DivModIs(r + 1, w, 1, 0);
      DivModIs(u + 1, w, q + 1, 0);
    }
  }

  /** Counters at most `d` apart, with `d` below the word, have that distance also modulo the word. */
  lemma WrappedMinus(w: nat, a: nat, b: nat)
    requires w >= 1 && b <= a < b + w
    ensures Minus(w, Wrap(w, a), Wrap(w, b)) == a - b
    ensures Wrap(w, a) == Wrap(w, b) <==> a == b
  {
    var p, q := a / w, b / w;
    var x, y := a % w, b % w;
    assert a == w * p + x && b == w * q + y;
    Quotients(w, p, x, q, y);
    assert a - b == if x >= y then x - y else x - y + w;
    DistanceMod(w, a - b, x - y);
  }

  lemma DistanceMod(w: nat, d: int, r: int)
    requires w >= 1 && 0 <= d < w && d == (if r < 0 then r + w else r) && -(w as int) < r < w
    ensures r % w == d
  {
    SmallMod(w, r);
  }

  lemma Quotients(w: nat, p: nat, x: nat, q: nat, y: nat)
    requires x < w && y < w && w * q + y <= w * p + x < w * q + y + w
    ensures w * p + x - (w * q + y) == if x >= y then x - y else x - y + w
  {
    MulGapBetween(w, p, q);
    MulGapBetween(w, p, q + 1);
    assert w * (q + 1) == w * q + w;
  }

  lemma WrappedSlot(capacity: nat, u: nat)
    requires GoodCapacity(capacity)
    ensures Slot(capacity, Wrap(WORD64, u)) == Slot(capacity, u)
  {
    PowerOfTwoTest(capacity);
    var k: nat :| capacity == Pow2(k);
    if k > 64 {
      Pow2Grows(64, k);
    }
    assert k <= 64;
    Pow2Plus(k, 64 - k);
    ModMod(u, capacity, Pow2(64 - k), WORD64);
    SlotIsRemainder(capacity, u);
    SlotIsRemainder(capacity, u % WORD64);
  }

  /** The wrapped ring can take exactly the steps the unbounded one can. */
  lemma SameEnabled<T(!new)>(capacity: nat, s: Ring<T>, u: Ring<T>, a: Action<T>)
    requires GoodCapacity(capacity) && Inv(capacity, u) && WellFormed(capacity, s) && Matches(WORD64, s, u)
    ensures Enabled(WORD64, capacity, s, a) <==> Enabled(0, capacity, u, a)
  {
    var w := WORD64;
    hide Pow2, Slot, Wrap;
    if u.producer.LoadedHead? {
      WrappedMinus(w, u.producer.tail, u.producer.head);
    }
    if u.consumer.TailLoaded? {
      WrappedMinus(w, u.consumer.tail, u.consumer.head);
    }
  }

  /** A step that touches a slot chooses the same one. */
  lemma SameSlotStep<T(!new)>(capacity: nat, s: Ring<T>, u: Ring<T>, a: Action<T>)
    requires GoodCapacity(capacity) && WellFormed(capacity, u) && WellFormed(capacity, s) && Matches(WORD64, s, u)
    requires a.PushWrite? || a.PopRead?
    requires Enabled(WORD64, capacity, s, a) && Enabled(0, capacity, u, a)
    ensures Matches(WORD64, Do(WORD64, capacity, s, a), Do(0, capacity, u, a))
  {
    hide Pow2, Slot, GoodCapacity, Full, Wrap, LogsMatch;
    WrappedSlot(capacity, if a.PushWrite? then u.producer.tail else u.consumer.head);
  }

  /** A step that publishes a counter publishes the same one modulo the word. */
  lemma SameStoreStep<T(!new)>(w: nat, capacity: nat, s: Ring<T>, u: Ring<T>, a: Action<T>)
    requires w >= 1 && WellFormed(capacity, u) && WellFormed(capacity, s) && Matches(w, s, u)
    requires a.PushStore? || a.PopStore?
    requires Enabled(w, capacity, s, a) && Enabled(0, capacity, u, a)
    ensures Matches(w, Do(w, capacity, s, a), Do(0, capacity, u, a))
  {
    hide Inc, Wrap;
    WrappedInc(w, if a.PushStore? then u.producer.tail else u.consumer.head);
  }

  /** All other steps load counters or report an outcome. */
  lemma SameLocalStep<T(!new)>(w: nat, capacity: nat, s: Ring<T>, u: Ring<T>, a: Action<T>)
    requires w >= 1 && WellFormed(capacity, u) && WellFormed(capacity, s) && Matches(w, s, u)
    requires !a.PushWrite? && !a.PopRead? && !a.PushStore? && !a.PopStore?
    requires Enabled(w, capacity, s, a) && Enabled(0, capacity, u, a)
    ensures Matches(w, Do(w, capacity, s, a), Do(0, capacity, u, a))
  {
    hide Wrap, Full;
  }

  lemma FreshMatches<T(!new)>(w: nat, slots: seq<T>)
    requires w >= 1
    ensures Matches(w, Fresh(slots), Fresh(slots))
  {
    SmallMod(w, 0);
  }

  /** Wrapping makes no difference. For runs of any length, a ring with 64-bit counters can take exactly the runs of
      the ring with unbounded counters, with the same outcomes, the same slots used and the same items passed on. */
  lemma {:induction false} WrappingIsInvisible<T(!new)>(capacity: nat, slots: seq<T>, actions: seq<Action<T>>)
    requires GoodCapacity(capacity) && |slots| == capacity
    ensures CanRun(WORD64, capacity, slots, actions) <==> CanRun(0, capacity, slots, actions)
    ensures CanRun(0, capacity, slots, actions) ==>
      Matches(WORD64, After(WORD64, capacity, slots, actions), After(0, capacity, slots, actions))
    decreases actions
  {
    if actions == [] {
      FreshMatches(WORD64, slots);
    } else {
      var front, a := actions[..|actions| - 1], actions[|actions| - 1];
      WrappingIsInvisible(capacity, slots, front);
      if CanRun(0, capacity, slots, front) {
        InvOnRuns(capacity, slots, front);
        hide Enabled, Do, GoodCapacity, Inv, Matches, Pow2, Wrap;
        var s, u := After(WORD64, capacity, slots, front), After(0, capacity, slots, front);
        SameEnabled(capacity, s, u, a);
        if Enabled(0, capacity, u, a) {
          assert WellFormed(capacity, s) && WellFormed(capacity, u);
          if a.PushWrite? || a.PopRead? {
            SameSlotStep(capacity, s, u, a);
          } else if a.PushStore? || a.PopStore? {
            SameStoreStep(WORD64, capacity, s, u, a);
          } else {
            SameLocalStep(WORD64, capacity, s, u, a);
          }
        }
      }
    }
  }

  /** First in, first out. In every reachable state of the ring with 64-bit counters the popped items are the first of
      the pushed ones, in order, and at most `capacity` items are outstanding. */
  lemma FirstInFirstOut<T(!new)>(capacity: nat, slots: seq<T>, actions: seq<Action<T>>)
    requires GoodCapacity(capacity) && |slots| == capacity && CanRun(WORD64, capacity, slots, actions)
    ensures var s := After(WORD64, capacity, slots, actions);
      s.popped <= s.pushed && |s.pushed| - |s.popped| <= capacity
  {
    WrappingIsInvisible(capacity, slots, actions);
    InvOnRuns(capacity, slots, actions);
  }

  /** No race on a slot. When the producer is about to write, the slot is no unread one, and if the consumer is about
      to read, it is not the slot being read. */
  lemma WritesNoLiveSlot<T(!new)>(capacity: nat, slots: seq<T>, actions: seq<Action<T>>)
    requires GoodCapacity(capacity) && |slots| == capacity && CanRun(WORD64, capacity, slots, actions)
    requires Enabled(WORD64, capacity, After(WORD64, capacity, slots, actions), PushWrite)
    ensures var s := After(WORD64, capacity, slots, actions);
      && (forall i :: |s.popped| <= i < |s.pushed| ==> Slot(capacity, i) != Slot(capacity, s.producer.tail))
      && (Enabled(WORD64, capacity, s, PopRead) ==> Slot(capacity, s.consumer.head) != Slot(capacity, s.producer.tail))
  {
    WrappingIsInvisible(capacity, slots, actions);
    InvOnRuns(capacity, slots, actions);
    var s, u := After(WORD64, capacity, slots, actions), After(0, capacity, slots, actions);
    SameEnabled(capacity, s, u, PushWrite);
    SameEnabled(capacity, s, u, PopRead);
    WriterApart(capacity, u);
    WrappedSlot(capacity, u.producer.tail);
    if Enabled(WORD64, capacity, s, PopRead) {
      WrappedSlot(capacity, u.consumer.head);
    }
    hide Slot, Pow2, GoodCapacity, Wrap;
  }

  lemma WriterApart<T(!new)>(capacity: nat, u: Ring<T>)
    requires GoodCapacity(capacity) && Inv(capacity, u) && Enabled(0, capacity, u, PushWrite)
    ensures forall i :: |u.popped| <= i < |u.pushed| ==> Slot(capacity, i) != Slot(capacity, u.producer.tail)
    ensures Enabled(0, capacity, u, PopRead) ==> Slot(capacity, u.consumer.head) != Slot(capacity, u.producer.tail)
  {
    forall i | |u.popped| <= i < |u.pushed|
      ensures Slot(capacity, i) != Slot(capacity, u.producer.tail)
    {
      SlotsDiffer(capacity, i, u.producer.tail);
    }
    hide Slot, GoodCapacity;
  }

  /** A push is refused only when the producer's view of the head shows a full ring. */
  lemma RefusedOnlyWhenFull<T(!new)>(capacity: nat, slots: seq<T>, actions: seq<Action<T>>)
    requires GoodCapacity(capacity) && |slots| == capacity && CanRun(WORD64, capacity, slots, actions)
    requires Enabled(WORD64, capacity, After(WORD64, capacity, slots, actions), PushFull)
    ensures var s := After(WORD64, capacity, slots, actions); |s.pushed| - s.headView == capacity
  {
    WrappingIsInvisible(capacity, slots, actions);
    InvOnRuns(capacity, slots, actions);
    SameEnabled(capacity, After(WORD64, capacity, slots, actions), After(0, capacity, slots, actions), PushFull);
    hide Slot, Pow2, GoodCapacity, Wrap;
  }

  /** A pop finds nothing only when every push the consumer can see has been popped. */
  lemma EmptyOnlyWhenDrained<T(!new)>(capacity: nat, slots: seq<T>, actions: seq<Action<T>>)
    requires GoodCapacity(capacity) && |slots| == capacity && CanRun(WORD64, capacity, slots, actions)
    requires Enabled(WORD64, capacity, After(WORD64, capacity, slots, actions), PopEmpty)
    ensures var s := After(WORD64, capacity, slots, actions); s.tailView == |s.popped|
  {
    WrappingIsInvisible(capacity, slots, actions);
    InvOnRuns(capacity, slots, actions);
    SameEnabled(capacity, After(WORD64, capacity, slots, actions), After(0, capacity, slots, actions), PopEmpty);
    hide Slot, Pow2, GoodCapacity, Wrap;
  }

  /** The items in the slots from the head counter up to the tail counter. */
  ghost function Unread<T(!new)>(capacity: nat, s: Ring<T>): (items: seq<T>)
    requires WellFormed(capacity, s) && |s.popped| <= |s.pushed|
    ensures |items| == |s.pushed| - |s.popped|
    ensures forall i :: 0 <= i < |items| ==> items[i] == s.slots[Slot(capacity, |s.popped| + i)]
  {
    seq(|s.pushed| - |s.popped|, i requires 0 <= i < |s.pushed| - |s.popped| => s.slots[Slot(capacity, |s.popped| + i)])
  }

  /** Nothing is lost or made up: the pushed items are the popped ones followed by those in the slots. */
  lemma PushedIsPoppedAndUnread<T(!new)>(capacity: nat, slots: seq<T>, actions: seq<Action<T>>)
    requires GoodCapacity(capacity) && |slots| == capacity && CanRun(WORD64, capacity, slots, actions)
    ensures var s := After(WORD64, capacity, slots, actions);
      |s.popped| <= |s.pushed| && s.pushed == s.popped + Unread(capacity, s)
  {
    WrappingIsInvisible(capacity, slots, actions);
    InvOnRuns(capacity, slots, actions);
    UnreadIsRest(capacity, After(0, capacity, slots, actions));
    hide Slot, Pow2, GoodCapacity, Wrap, CanRun;
    var s, u := After(WORD64, capacity, slots, actions), After(0, capacity, slots, actions);
    assert Unread(capacity, s) == Unread(capacity, u);
  }

  lemma UnreadIsRest<T(!new)>(capacity: nat, u: Ring<T>)
    requires Inv(capacity, u)
    ensures |u.popped| <= |u.pushed| && u.pushed == u.popped + Unread(capacity, u)
  {
    hide Slot;
    forall i | 0 <= i < |Unread(capacity, u)|
      ensures Unread(capacity, u)[i] == u.pushed[|u.popped| + i]
    {
    }
  }

  /** A run goes on with any enabled step. */
  lemma NextAction<T(!new)>(w: nat, capacity: nat, slots: seq<T>, actions: seq<Action<T>>, a: Action<T>)
    requires capacity >= 1 && |slots| == capacity && CanRun(w, capacity, slots, actions)
    requires Enabled(w, capacity, After(w, capacity, slots, actions), a)
    ensures CanRun(w, capacity, slots, actions + [a])
    ensures After(w, capacity, slots, actions + [a]) == Do(w, capacity, After(w, capacity, slots, actions), a)
  {
    hide Enabled, Do;
    assert (actions + [a])[..|actions|] == actions;
  }

  /** What the calls that have returned answered: how many pushes succeeded, and the items popped. */
  function Accepted<T>(outcomes: seq<Outcome<T>>): nat {
    if outcomes == [] then 0
    else Accepted(Front(outcomes)) + (if Last(outcomes) == Pushed(true) then 1 else 0)
  }

  function Delivered<T>(outcomes: seq<Outcome<T>>): seq<T> {
    if outcomes == [] then []
    else Delivered(Front(outcomes)) + (if Last(outcomes).Popped? then [Last(outcomes).item] else [])
  }

  lemma OutcomesSnoc<T>(outcomes: seq<Outcome<T>>, o: Outcome<T>)
    ensures Accepted(outcomes + [o]) == Accepted(outcomes) + (if o == Pushed(true) then 1 else 0)
    ensures Delivered(outcomes + [o]) == Delivered(outcomes) + (if o.Popped? then [o.item] else [])
  {
    assert Front(outcomes + [o]) == outcomes;
  }

  /** The answers tell the truth: as many pushes answered true as items were pushed, and the pops answered with the
      popped items, in order. */
  lemma {:induction false} OutcomesTell<T(!new)>(w: nat, capacity: nat, slots: seq<T>, actions: seq<Action<T>>)
    requires capacity >= 1 && |slots| == capacity && CanRun(w, capacity, slots, actions)
    ensures var s := After(w, capacity, slots, actions);
      Accepted(s.outcomes) == |s.pushed| && Delivered(s.outcomes) == s.popped
    decreases actions
  {
    if actions != [] {
      var front, a := actions[..|actions| - 1], actions[|actions| - 1];
      OutcomesTell(w, capacity, slots, front);
      var s := After(w, capacity, slots, front);
      hide Accepted, Delivered, Slot, Inc, Full, CanRun;
      StepTells(w, capacity, s, a);
    }
  }

  lemma StepTells<T(!new)>(w: nat, capacity: nat, s: Ring<T>, a: Action<T>)
    requires WellFormed(capacity, s) && Enabled(w, capacity, s, a)
    requires Accepted(s.outcomes) == |s.pushed| && Delivered(s.outcomes) == s.popped
    ensures var s' := Do(w, capacity, s, a); Accepted(s'.outcomes) == |s'.pushed| && Delivered(s'.outcomes) == s'.popped
  {
    hide Accepted, Delivered, Slot, Inc, Full;
    match a
    case PushFull => OutcomesSnoc(s.outcomes, Pushed(false));
    case PushStore => OutcomesSnoc(s.outcomes, Pushed(true));
    case PopEmpty => OutcomesSnoc(s.outcomes, Nothing);
    case PopStore => OutcomesSnoc(s.outcomes, Popped(s.consumer.item));
    case _ =>
  }
}
