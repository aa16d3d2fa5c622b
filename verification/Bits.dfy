/** Bitwise arithmetic of unsigned integers, written on naturals, and the facts about masks that the
    ring buffer's slot mask and the subnet masks rest on. */
module Bits {

  function Pow2(k: nat): (p: nat)
    ensures p >= 1
  {
    if k == 0 then 1 else 2 * Pow2(k - 1)
  }

  /** How many values a 32-bit and a 64-bit word have. */
  const WORD32: nat := 0x1_0000_0000
  const WORD64: nat := Pow2(64)

  lemma WordsArePowers()
    ensures Pow2(32) == WORD32 && WORD64 == 0x1_0000_0000_0000_0000
  {
    assert Pow2(8) == 256;
    Pow2Plus(8, 8);
    Pow2Plus(16, 16);
    Pow2Plus(32, 32);
  }

  ghost predicate IsPow2(n: nat) {
    exists k: nat :: n == Pow2(k)
  }

  /** The bitwise conjunction of two unsigned integers. */
  function BitAnd(x: nat, y: nat): (r: nat)
    ensures r <= x && r <= y
  {
    if x == 0 || y == 0 then 0
    else 2 * BitAnd(x / 2, y / 2) + (if x % 2 == 1 && y % 2 == 1 then 1 else 0)
  }

  /** The number of one bits. */
  function PopCount(m: nat): nat {
    if m == 0 then 0 else m % 2 + PopCount(m / 2)
  }

  lemma {:induction false} Pow2Plus(a: nat, b: nat)
    ensures Pow2(a + b) == Pow2(a) * Pow2(b)
  {
    if a > 0 {
      Pow2Plus(a - 1, b);
      assert Pow2(a + b) == 2 * Pow2(a - 1 + b);
    }
  }

  lemma {:induction false} Pow2Grows(a: nat, b: nat)
    requires a <= b
    ensures Pow2(a) <= Pow2(b)
    ensures a < b ==> Pow2(a) < Pow2(b)
  {
    if a < b {
      Pow2Grows(a, b - 1);
    }
  }

  lemma {:induction false} AndSelf(x: nat)
    ensures BitAnd(x, x) == x
  {
    if x > 0 {
      AndSelf(x / 2);
    }
  }

  /** Masking twice is masking once. */
  lemma {:induction false} AndAgain(x: nat, y: nat)
    ensures BitAnd(BitAnd(x, y), y) == BitAnd(x, y)
  {
    if x > 0 && y > 0 {
      AndAgain(x / 2, y / 2);
      var low := if x % 2 == 1 && y % 2 == 1 then 1 else 0;
      var r := BitAnd(x, y);
      assert r / 2 == BitAnd(x / 2, y / 2) && r % 2 == low;
    }
  }

  /** Masking with Pow2(k) - 1 is reduction modulo Pow2(k). */
  lemma AndLowMask(x: nat, k: nat)
    ensures BitAnd(x, Pow2(k) - 1) == x % Pow2(k)
  {
    AndLowMaskKeeps(x, k);
    KeepLowIsMod(x, k);
  }

  /** The k low bits. */
  function KeepLow(x: nat, k: nat): nat {
    if k == 0 then 0 else x % 2 + 2 * KeepLow(x / 2, k - 1)
  }

  lemma {:induction false} KeepLowIsMod(x: nat, k: nat)
    ensures KeepLow(x, k) == x % Pow2(k)
  {
    if k > 0 {
      KeepLowIsMod(x / 2, k - 1);
      HalveMod(x, Pow2(k - 1));
    }
  }

  lemma {:induction false} KeepLowZero(k: nat)
    ensures KeepLow(0, k) == 0
  {
    if k > 0 {
      KeepLowZero(k - 1);
    }
  }

  lemma {:induction false} AndLowMaskKeeps(x: nat, k: nat)
    ensures BitAnd(x, Pow2(k) - 1) == KeepLow(x, k)
  {
    if x == 0 {
      KeepLowZero(k);
    } else if k > 0 {
      AndLowMaskKeeps(x / 2, k - 1);
      assert (Pow2(k) - 1) / 2 == Pow2(k - 1) - 1;
    }
  }

  /** Masking with the ones of positions k to w - 1 clears the k low bits. */
  lemma AndHighMask(x: nat, w: nat, k: nat)
    requires k <= w && x < Pow2(w)
    ensures Pow2(k) <= Pow2(w)
    ensures BitAnd(x, Pow2(w) - Pow2(k)) == x - x % Pow2(k)
  {
    Pow2Grows(k, w);
    AndHighMaskClears(x, w, k);
    KeepLowIsMod(x, k);
  }

  lemma {:induction false} AndAllOnes(x: nat, w: nat)
    requires x < Pow2(w)
    ensures BitAnd(x, Pow2(w) - 1) == x
  {
    if x > 0 {
      AndAllOnes(x / 2, w - 1);
      assert (Pow2(w) - 1) / 2 == Pow2(w - 1) - 1;
    }
  }

  lemma {:induction false} AndHighMaskClears(x: nat, w: nat, k: nat)
    requires k <= w && x < Pow2(w) && Pow2(k) <= Pow2(w)
    ensures BitAnd(x, Pow2(w) - Pow2(k)) == x - KeepLow(x, k)
    decreases k
  {
    hide BitAnd;
    if k == 0 {
      AndAllOnes(x, w);
    } else {
      var m: nat := Pow2(w - 1) - Pow2(k - 1);
      AndHighMaskClears(x / 2, w - 1, k - 1);
      AndDouble(x, m);
      assert Pow2(w) - Pow2(k) == 2 * m;
      assert KeepLow(x, k) == x % 2 + 2 * KeepLow(x / 2, k - 1);
    }
  }

  lemma AndDouble(x: nat, m: nat)
    ensures BitAnd(x, 2 * m) == 2 * BitAnd(x / 2, m)
  {
    assert 2 * m / 2 == m;
  }

  lemma HalveMod(x: nat, p: nat)
    requires p >= 1
    ensures x % (2 * p) == 2 * (x / 2 % p) + x % 2
  {
    var q := x / 2 / p;
    assert x == 2 * p * q + (2 * (x / 2 % p) + x % 2);
    DivModIs(x, 2 * p, q, 2 * (x / 2 % p) + x % 2);
  }

  lemma MulNonNegative(d: nat, e: nat)
    ensures d * e >= 0
  {
  }

  lemma MulAssociative(a: nat, b: nat, c: nat)
    ensures (a * b) * c == a * (b * c)
  {
  }

  lemma MulGap(d: nat, a: int, b: int)
    requires a < b
    ensures d * a + d <= d * b
  {
    var e: nat := b - a - 1;
    MulNonNegative(d, e);
    assert d * b == d * (a + e + 1) == d * a + d * e + d;
  }

  /** A quotient and a remainder in range are the quotient and the remainder. */
  lemma DivModIs(x: nat, d: nat, q: nat, r: nat)
    requires x == d * q + r && r < d
    ensures x / d == q && x % d == r
  {
    var q' := x / d;
    if q < q' {
      MulGap(d, q, q');
    }
    if q' < q {
      MulGap(d, q', q);
    }
  }

  /** The remainder of a number less than the modulus away from 0. */
  lemma SmallMod(w: nat, x: int)
    requires -(w as int) < x < w
    ensures x % w == if x < 0 then x + w else x
  {
  }

  /** Numbers less than `d` apart have different remainders. */
  lemma RemaindersDiffer(d: nat, a: nat, b: nat)
    requires a < b < a + d
    ensures a % d != b % d
  {
    if a % d == b % d {
      assert d * (b / d) - d * (a / d) == b - a;
      MulGapBetween(d, a / d, b / d);
      assert false;
    }
  }

  lemma MulGapBetween(d: nat, p: nat, q: nat)
    ensures p == q || d * q >= d * p + d || d * p >= d * q + d
  {
    if p < q {
      MulGap(d, p, q);
    } else if q < p {
      MulGap(d, q, p);
    }
  }

  /** Reducing modulo a multiple first changes no remainder. */
  lemma ModMod(x: nat, d: nat, m: nat, c: nat)
    requires d >= 1 && m >= 1 && c == d * m && c >= 1
    ensures (x % c) % d == x % d
  {
    var q, r := x / c, x % c;
    var e, f := r / d, r % d;
    assert x == c * q + r && r == d * e + f;
    MulAssociative(d, m, q);
    assert d * (m * q + e) == d * (m * q) + d * e;
    DivModIs(x, d, m * q + e, f);
  }

  /** The test n & (n - 1) == 0 recognises exactly the powers of two among the positive numbers. */
  lemma {:induction false} PowerOfTwoTest(n: nat)
    requires n >= 1
    ensures BitAnd(n, n - 1) == 0 <==> IsPow2(n)
  {
    if n == 1 {
      assert n == Pow2(0);
    } else if n % 2 == 0 {
      PowerOfTwoTest(n / 2);
      assert (n - 1) / 2 == n / 2 - 1;
      if IsPow2(n / 2) {
        var k: nat :| n / 2 == Pow2(k);
        assert n == Pow2(k + 1);
      }
      if IsPow2(n) {
        var k: nat :| n == Pow2(k);
        assert n / 2 == Pow2(k - 1);
      }
    } else {
      AndSelf(n / 2);
      assert (n - 1) / 2 == n / 2;
      forall k: nat
        ensures n != Pow2(k)
      {
        assert k == 0 || Pow2(k) == 2 * Pow2(k - 1);
      }
    }
  }

  /** The ones of positions k to w - 1 number w - k. */
  lemma {:induction false} PopCountHighMask(w: nat, k: nat)
    requires k <= w
    ensures Pow2(k) <= Pow2(w)
    ensures PopCount(Pow2(w) - Pow2(k)) == w - k
  {
    Pow2Grows(k, w);
    if k == w {
    } else if k > 0 {
      PopCountHighMask(w - 1, k - 1);
      Pow2Grows(k, w);
      assert (Pow2(w) - Pow2(k)) / 2 == Pow2(w - 1) - Pow2(k - 1);
    } else {
      PopCountHighMask(w - 1, 0);
      assert (Pow2(w) - 1) / 2 == Pow2(w - 1) - 1;
    }
  }
}
