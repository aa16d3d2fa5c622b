/** Decimal numerals: what a run of digits is worth, and how a number is printed. */
module Decimal {

  predicate IsDigit(c: char) {
    '0' <= c <= '9'
  }

  function DigitValue(c: char): (d: nat)
    requires IsDigit(c)
  {
    c as int - '0' as int
  }

  predicate IsNumeral(s: string) {
    forall i :: 0 <= i < |s| ==> IsDigit(s[i])
  }

  function Value(s: string): nat
    requires IsNumeral(s)
  {
    if s == [] then 0 else 10 * Value(s[..|s| - 1]) + DigitValue(s[|s| - 1])
  }

  function DigitChar(d: nat): (c: char)
    requires d < 10
    ensures IsDigit(c) && DigitValue(c) == d
  {
    ('0' as int + d) as char
  }

  /** The numeral `std::to_string` prints. */
  function Print(n: nat): (s: string)
    ensures IsNumeral(s) && s != []
    ensures Value(s) == n
  {
    if n < 10 then
      assert [DigitChar(n)][..0] == [];
      [DigitChar(n)]
    else
      var front, last := Print(n / 10), [DigitChar(n % 10)];
      assert (front + last)[..|front + last| - 1] == front;
      front + last
  }

  lemma ValueSnoc(s: string, c: char)
    requires IsNumeral(s) && IsDigit(c)
    ensures IsNumeral(s + [c]) && Value(s + [c]) == 10 * Value(s) + DigitValue(c)
  {
    assert (s + [c])[..|s|] == s;
  }

  /** A longer numeral is worth no less. */
  lemma {:induction false} ValueGrows(s: string, t: string)
    requires IsNumeral(s + t)
    ensures IsNumeral(s) && Value(s) <= Value(s + t)
    decreases t
  {
    assert forall i :: 0 <= i < |s| ==> s[i] == (s + t)[i];
    if t == [] {
      assert s + t == s;
    } else {
      var front := t[..|t| - 1];
      assert (s + t)[..|s + t| - 1] == s + front;
      assert forall i :: 0 <= i < |s + front| ==> (s + front)[i] == (s + t)[i];
      ValueGrows(s, front);
    }
  }

  function Ten(n: nat): nat {
    if n == 0 then 1 else 10 * Ten(n - 1)
  }

  /** Each digit counts ten times as much as the one after it. */
  lemma {:induction false} PlaceValue(s: string, t: string)
    requires IsNumeral(s) && IsNumeral(t)
    ensures IsNumeral(s + t) && Value(s + t) == Value(s) * Ten(|t|) + Value(t)
    decreases t
  {
    if t == "" {
      assert s + t == s;
    } else {
      var front, last := t[..|t| - 1], t[|t| - 1];
      PlaceValue(s, front);
      assert s + t == (s + front) + [last] && t == front + [last];
      ValueSnoc(s + front, last);
      ValueSnoc(front, last);
      hide Value, IsNumeral, IsDigit;
      assert Ten(|t|) == 10 * Ten(|front|);
      Distribute(Value(s), Ten(|front|), Value(front));
    }
  }

  lemma Distribute(v: nat, ten: nat, w: nat)
    ensures 10 * (v * ten + w) == v * (10 * ten) + 10 * w
  {
  }

  lemma OneDigit(c: char)
    requires '0' <= c <= '9'
    ensures IsNumeral([c]) && Value([c]) == c as int - 48
  {
    assert [c][..0] == [];
  }

  /** Printed numbers have no leading zero, 0 itself apart. */
  lemma {:induction false} NoLeadingZero(n: nat)
    ensures if n == 0 then Print(n) == "0" else Print(n)[0] != '0'
  {
    if n >= 10 {
      NoLeadingZero(n / 10);
    }
  }
}
