/** IPv4 addresses and subnet masks as 32-bit unsigned values, with their textual forms. */
module Addressing {
  import opened Bits
  import opened Common
  import opened Decimal

  /** The dot-separated fields of a text. */
  function Fields(s: string): (f: seq<string>)
    ensures |f| >= 1
  {
    if s == "" then [""]
    else
      var rest := Fields(s[1..]);
      if s[0] == '.' then [""] + rest else [[s[0]] + rest[0]] + rest[1..]
  }

  predicate IsOctet(field: string) {
    field != "" && IsNumeral(field) && Value(field) <= 255
  }

  predicate AreOctets(fields: seq<string>) {
    forall i :: 0 <= i < |fields| ==> IsOctet(fields[i])
  }

  /** One more octet below the bits of `high`. */
  function Append(high: nat, octet: nat): nat {
    high * 256 + octet
  }

  /** The octets appended, most significant first, below the bits already in `high`. */
  function Combine(high: nat, fields: seq<string>): nat
    requires AreOctets(fields)
    decreases fields
  {
    if fields == [] then high
    else assert AreOctets(fields[1..]); Combine(Append(high, Value(fields[0])), fields[1..])
  }

  /** The address a text denotes: four fields, each a number of at most 255. */
  function Meaning(s: string): Option<nat> {
    var f := Fields(s);
    if |f| == 4 && AreOctets(f) then Some(Combine(0, f)) else None
  }

  /** What is left to do for the text `s` after `octets` fields worth `high` and the digits `current` of the next. */
  function Remaining(octets: nat, high: nat, current: string, s: string): Option<nat> {
    var f := Fields(current + s);
    if octets + |f| == 4 && AreOctets(f) then Some(Combine(high, f)) else None
  }

  lemma StartParse(s: string)
    ensures Meaning(s) == Remaining(0, 0, "", s)
  {
    assert "" + s == s;
  }

  lemma {:induction false} FieldsOfRun(run: string, s: string)
    requires '.' !in run
    ensures Fields(run + s) == [run + Fields(s)[0]] + Fields(s)[1..]
  {
    if run == "" {
      assert run + s == s && run + Fields(s)[0] == Fields(s)[0];
    } else {
      FieldsOfRun(run[1..], s);
      assert (run + s)[1..] == run[1..] + s;
      assert (run + s)[0] == run[0] != '.';
      assert [run[0]] + (run[1..] + Fields(s)[0]) == run + Fields(s)[0];
    }
  }

  lemma {:induction false} NumeralHasNoDot(s: string)
    requires IsNumeral(s)
    ensures '.' !in s
  {
    forall i | 0 <= i < |s|
      ensures s[i] != '.'
    {
      assert IsDigit(s[i]);
    }
  }

  lemma AfterDot(octets: nat, high: nat, current: string, rest: string)
    requires IsNumeral(current)
    ensures Remaining(octets, high, current, "." + rest) ==
      if IsOctet(current) then Remaining(octets + 1, Append(high, Value(current)), "", rest) else None
  {
    var f, g := Fields(current + ("." + rest)), Fields("" + rest);
    assert "" + rest == rest;
    NumeralHasNoDot(current);
    FieldsOfRun(current, "." + rest);
    assert ("." + rest)[1..] == rest && current + "" == current;
    assert Fields("." + rest) == [""] + g;
    assert f == [current] + g;
    assert f[1..] == g;
    if AreOctets(f) {
      assert IsOctet(f[0]);
      forall i | 0 <= i < |g|
        ensures IsOctet(g[i])
      {
        assert g[i] == f[i + 1];
      }
    }
  }

  lemma AfterDigit(octets: nat, high: nat, current: string, c: char, rest: string)
    requires IsNumeral(current) && IsDigit(c)
    ensures IsNumeral(current + [c]) && Value(current + [c]) == 10 * Value(current) + DigitValue(c)
    ensures Remaining(octets, high, current, [c] + rest) ==
      if Value(current + [c]) <= 255 then Remaining(octets, high, current + [c], rest) else None
  {
    ValueSnoc(current, c);
    NumeralHasNoDot(current + [c]);
    var longer := current + [c];
    assert current + ([c] + rest) == longer + rest;
    FieldsOfRun(longer, rest);
    var f := Fields(longer + rest);
    if IsOctet(f[0]) {
      ValueGrows(longer, Fields(rest)[0]);
    }
  }

  lemma AfterOther(octets: nat, high: nat, current: string, c: char, rest: string)
    requires IsNumeral(current) && !IsDigit(c) && c != '.'
    ensures Remaining(octets, high, current, [c] + rest) == None
  {
    NumeralHasNoDot(current);
    FieldsOfRun(current, [c] + rest);
    assert ([c] + rest)[1..] == rest;
    var f := Fields(current + ([c] + rest));
    assert f[0] == current + ([c] + Fields(rest)[0]);
    assert f[0][|current|] == c;
  }

  lemma AtEnd(octets: nat, high: nat, current: string)
    requires IsNumeral(current)
    ensures Remaining(octets, high, current, "") ==
      if octets == 3 && IsOctet(current) then Some(Append(high, Value(current))) else None
  {
    NumeralHasNoDot(current);
    FieldsOfRun(current, "");
    assert current + "" == current;
    var f := Fields(current + "");
    assert f == [current];
    assert f[1..] == [];
    if octets == 3 && IsOctet(current) {
      assert AreOctets(f);
      assert Combine(high, f) == Combine(Append(high, Value(current)), []);
    } else if octets == 3 {
      assert !IsOctet(f[0]);
    }
  }

  /** How many values so many bytes can hold. */
  function Bytes(n: nat): nat {
    if n == 0 then 1 else 256 * Bytes(n - 1)
  }

  /** The parser accepts a text exactly when it is four octets, and returns the address they denote. */
  method ParseAddress(s: string) returns (r: Option<nat>)
    ensures r == Meaning(s)
    ensures r.Some? ==> r.value < WORD32
  {
    assert Bytes(1) == 256 && Bytes(2) == 65536 && Bytes(3) == 16777216;
    StartParse(s);
    hide Remaining, Meaning, Fields, AreOctets;
    var result: nat, octetsFound: nat, currentOctet: nat, readingDigit := 0, 0, 0, false;
    ghost var current := "";
    for i := 0 to |s|
      invariant Meaning(s) == Remaining(octetsFound, result, current, s[i..])
      invariant IsNumeral(current) && currentOctet == Value(current) <= 255 && (readingDigit <==> current != "")
      invariant octetsFound <= 3 && result < Bytes(octetsFound)
    {
      var ch := s[i];
      assert s[i..] == [ch] + s[i + 1..];
      if '0' <= ch <= '9' {
        AfterDigit(octetsFound, result, current, ch, s[i + 1..]);
        currentOctet := currentOctet * 10 + (ch as int - '0' as int);
        if currentOctet > 255 {
          return None;
        }
        current := current + [ch];
        readingDigit := true;
      } else if ch == '.' {
        AfterDot(octetsFound, result, current, s[i + 1..]);
        if !readingDigit || octetsFound >= 3 {
          return None;
        }
        result := (result * 256) % WORD32 + currentOctet;
        currentOctet, current := 0, "";
        octetsFound := octetsFound + 1;
        readingDigit := false;
      } else {
        AfterOther(octetsFound, result, current, ch, s[i + 1..]);
        return None;
      }
    }
    AtEnd(octetsFound, result, current);
    assert s[|s|..] == "";
    if octetsFound != 3 || !readingDigit {
      return None;
    }
    result := (result * 256) % WORD32 + currentOctet;
    return Some(result);
  }

  /** The byte of an address that counts `unit`. */
  function OctetAt(address: nat, unit: nat): (octet: nat)
    requires unit >= 1
    ensures octet < 256
  {
    address / unit % 256
  }

  /** The printed form of an address. */
  function ToText(address: nat): string {
    Print(OctetAt(address, 16777216)) + "." + Print(OctetAt(address, 65536)) + "." +
    Print(OctetAt(address, 256)) + "." + Print(OctetAt(address, 1))
  }

  lemma FieldsOfDotted(a: string, rest: string)
    requires IsNumeral(a)
    ensures Fields(a + "." + rest) == [a] + Fields(rest)
  {
    NumeralHasNoDot(a);
    FieldsOfRun(a, "." + rest);
    assert a + "." + rest == a + ("." + rest);
    assert ("." + rest)[1..] == rest && a + "" == a;
    assert Fields("." + rest) == [""] + Fields(rest);
  }

  lemma FieldsOfNumeral(d: string)
    requires IsNumeral(d)
    ensures Fields(d) == [d]
  {
    NumeralHasNoDot(d);
    FieldsOfRun(d, "");
    assert d + "" == d;
  }

  lemma OctetsMakeUp(address: nat)
    requires address < WORD32
    ensures var top := Append(Append(0, OctetAt(address, 16777216)), OctetAt(address, 65536));
      Append(Append(top, OctetAt(address, 256)), OctetAt(address, 1)) == address
  {
    var two, three := address / 65536, address / 16777216;
    assert three < 256 && Append(0, three % 256) == three;
    assert Append(three, two % 256) == two;
    assert Append(two, address / 256 % 256) == address / 256;
  }

  lemma CombineFour(a: string, b: string, c: string, d: string)
    requires IsOctet(a) && IsOctet(b) && IsOctet(c) && IsOctet(d)
    ensures Combine(0, [a, b, c, d]) == Append(Append(Append(Append(0, Value(a)), Value(b)), Value(c)), Value(d))
  {
    hide Combine, Value, IsNumeral, Append;
    var ha := Append(0, Value(a));
    var hb := Append(ha, Value(b));
    var hc := Append(hb, Value(c));
    assert [a] + [b, c, d] == [a, b, c, d] && [b] + [c, d] == [b, c, d] && [c] + [d] == [c, d] && [d] + [] == [d];
    CombineCons(0, a, [b, c, d]);
    CombineCons(ha, b, [c, d]);
    CombineCons(hb, c, [d]);
    CombineCons(hc, d, []);
    CombineNone(Append(hc, Value(d)));
  }

  lemma CombineNone(high: nat)
    ensures Combine(high, []) == high
  {
  }

  lemma CombineCons(high: nat, field: string, rest: seq<string>)
    requires IsOctet(field) && AreOctets(rest)
    ensures AreOctets([field] + rest) && Combine(high, [field] + rest) == Combine(Append(high, Value(field)), rest)
  {
    assert ([field] + rest)[1..] == rest;
  }

  /** Parsing the printed form of an address gives the address back. */
  lemma PrintThenParse(address: nat)
    requires address < WORD32
    ensures Meaning(ToText(address)) == Some(address)
  {
    var a, b := Print(OctetAt(address, 16777216)), Print(OctetAt(address, 65536));
    var c, d := Print(OctetAt(address, 256)), Print(OctetAt(address, 1));
    OctetsMakeUp(address);
    CombineFour(a, b, c, d);
    FieldsOfFour(a, b, c, d);
    hide Combine, Print, Value, Fields, Append, OctetAt;
  }

  lemma FieldsOfFour(a: string, b: string, c: string, d: string)
    requires IsNumeral(a) && IsNumeral(b) && IsNumeral(c) && IsNumeral(d)
    ensures Fields(a + "." + b + "." + c + "." + d) == [a, b, c, d]
  {
    hide Fields, IsNumeral;
    var cd := c + "." + d;
    var bcd := b + "." + cd;
    assert a + "." + b + "." + c + "." + d == a + "." + bcd;
    FieldsOfDotted(a, bcd);
    FieldsOfDotted(b, cd);
    FieldsOfDotted(c, d);
    FieldsOfNumeral(d);
  }

  /** The fields joined by dots. */
  function Joined(fields: seq<string>): string
    requires fields != []
  {
    if |fields| == 1 then fields[0] else fields[0] + "." + Joined(fields[1..])
  }

  lemma {:induction false} FieldsJoin(s: string)
    ensures Joined(Fields(s)) == s
  {
    if s != "" {
      FieldsJoin(s[1..]);
      var rest := Fields(s[1..]);
      if s[0] == '.' {
        assert ([""] + rest)[1..] == rest;
      } else {
        assert ([[s[0]] + rest[0]] + rest[1..])[1..] == rest[1..];
      }
    }
  }

  /** A text of an octet: digits, at least one, worth at most 255; leading zeros do no harm. */
  predicate OctetText(x: string) {
    |x| > 0 && (forall i :: 0 <= i < |x| ==> '0' <= x[i] <= '9') && IsNumeral(x) && Value(x) <= 255
  }

  /** Four octets with dots between them denote the address of which they are the bytes. */
  lemma FourOctetsMean(a: string, b: string, c: string, d: string)
    requires OctetText(a) && OctetText(b) && OctetText(c) && OctetText(d)
    ensures Meaning(a + "." + b + "." + c + "." + d) ==
      Some(Value(a) * 16777216 + Value(b) * 65536 + Value(c) * 256 + Value(d))
  {
    hide Fields, Combine, Value, IsNumeral, Append;
    OctetTextIsOctet(a);
    OctetTextIsOctet(b);
    OctetTextIsOctet(c);
    OctetTextIsOctet(d);
    hide OctetText, IsOctet;
    FieldsOfFour(a, b, c, d);
    CombineFour(a, b, c, d);
    FourAreOctets(a, b, c, d);
    AppendFour(Value(a), Value(b), Value(c), Value(d));
  }

  lemma OctetTextIsOctet(x: string)
    requires OctetText(x)
    ensures IsOctet(x) && IsNumeral(x)
  {
  }

  lemma FourAreOctets(a: string, b: string, c: string, d: string)
    requires IsOctet(a) && IsOctet(b) && IsOctet(c) && IsOctet(d)
    ensures AreOctets([a, b, c, d])
  {
  }

  lemma AppendFour(a: nat, b: nat, c: nat, d: nat)
    ensures Append(Append(Append(Append(0, a), b), c), d) == a * 16777216 + b * 65536 + c * 256 + d
  {
  }

  /** And nothing else denotes an address. */
  lemma OnlyFourOctetsMean(s: string)
    requires Meaning(s).Some?
    ensures exists a, b, c, d ::
      OctetText(a) && OctetText(b) && OctetText(c) && OctetText(d) && s == a + "." + b + "." + c + "." + d
  {
    FieldsJoin(s);
    var f := Fields(s);
    hide Fields, Value;
    forall i | 0 <= i < 4
      ensures OctetText(f[i])
    {
      assert IsOctet(f[i]);
      assert forall j :: 0 <= j < |f[i]| ==> IsDigit(f[i][j]);
    }
    assert f[1..] == [f[1], f[2], f[3]] && f[1..][1..] == [f[2], f[3]] && f[1..][1..][1..] == [f[3]];
    JoinedFour(f[0], f[1], f[2], f[3]);
    assert f == [f[0], f[1], f[2], f[3]];
  }

  lemma JoinedFour(a: string, b: string, c: string, d: string)
    ensures Joined([a, b, c, d]) == a + "." + b + "." + c + "." + d
  {
    assert [a, b, c, d][1..] == [b, c, d] && [b, c, d][1..] == [c, d] && [c, d][1..] == [d];
    var cd := c + "." + d;
    assert Joined([c, d]) == cd;
    assert Joined([b, c, d]) == b + "." + cd;
    assert a + "." + (b + "." + cd) == a + "." + b + "." + c + "." + d;
  }

  /** The printed form: the four bytes in decimal, the most significant first. */
  lemma PrintedForm(address: nat, a: nat, b: nat, c: nat, d: nat)
    requires a < 256 && b < 256 && c < 256 && d < 256 && address == a * 16777216 + b * 65536 + c * 256 + d
    ensures ToText(address) == Print(a) + "." + Print(b) + "." + Print(c) + "." + Print(d)
  {
    hide Print, Value, IsNumeral, OctetAt;
    OctetIs(address, 16777216, 0, a, b * 65536 + c * 256 + d);
    OctetIs(address, 65536, a, b, c * 256 + d);
    OctetIs(address, 256, a * 256 + b, c, d);
    OctetIs(address, 1, a * 65536 + b * 256 + c, d, 0);
  }

  lemma OctetIs(x: nat, unit: nat, above: nat, octet: nat, below: nat)
    requires unit >= 1 && below < unit && octet < 256 && x == unit * (256 * above + octet) + below
    ensures OctetAt(x, unit) == octet
  {
    DivModIs(x, unit, 256 * above + octet, below);
    DivModIs(256 * above + octet, 256, above, octet);
  }

  /** The mask of a prefix length: that many ones from the top. */
  function MaskOf(prefix: nat): (m: nat)
    requires prefix <= 32
    ensures m < WORD32
  {
    WordsArePowers();
    Pow2Grows(32 - prefix, 32);
    Pow2(32) - Pow2(32 - prefix)
  }

  ghost predicate Contiguous(mask: nat) {
    exists p: nat :: p <= 32 && mask == MaskOf(p)
  }

  /** A mask from a prefix length: all ones shifted left within 32 bits. */
  method MaskFromPrefix(prefixLength: int) returns (r: Option<nat>)
    ensures r == if 0 <= prefixLength <= 32 then Some(MaskOf(prefixLength)) else None
  {
    if prefixLength < 0 || prefixLength > 32 {
      return None;
    }
    WordsArePowers();
    if prefixLength == 0 {
      return Some(0);
    }
    var shift := Pow2(32 - prefixLength);
    ShiftedOnes(prefixLength);
    return Some((WORD32 - 1) * shift % WORD32);
  }

  lemma ShiftedOnes(prefix: nat)
    requires 1 <= prefix <= 32
    ensures (WORD32 - 1) * Pow2(32 - prefix) % WORD32 == MaskOf(prefix)
  {
    var s := Pow2(32 - prefix);
    WordsArePowers();
    Pow2Grows(32 - prefix, 32);
    assert (WORD32 - 1) * s == WORD32 * (s - 1) + (WORD32 - s);
    DivModIs((WORD32 - 1) * s, WORD32, s - 1, WORD32 - s);
  }

  /** The trailing-ones test on the inverted mask recognises exactly the contiguous non-zero masks. */
  lemma TrailingOnesTest(mask: nat)
    requires 0 < mask < WORD32
    ensures BitAnd(WORD32 - 1 - mask, (WORD32 - 1 - mask + 1) % WORD32) == 0 <==> Contiguous(mask)
  {
    hide BitAnd, Pow2;
    var n: nat := WORD32 - mask;
    PowerOfTwoTest(n);
    AndCommutes(n - 1, n);
    ContiguousIsPow2(mask);
  }

  lemma ContiguousIsPow2(mask: nat)
    requires 0 < mask < WORD32
    ensures Contiguous(mask) <==> IsPow2(WORD32 - mask)
  {
    WordsArePowers();
    hide Pow2;
    if IsPow2(WORD32 - mask) {
      var k: nat :| WORD32 - mask == Pow2(k);
      if k > 32 {
        Pow2Grows(32, k);
      }
      assert k <= 32;
      assert mask == MaskOf(32 - k);
    }
    if Contiguous(mask) {
      var p: nat :| p <= 32 && mask == MaskOf(p);
      assert WORD32 - mask == Pow2(32 - p);
    }
  }

  lemma {:induction false} AndCommutes(x: nat, y: nat)
    ensures BitAnd(x, y) == BitAnd(y, x)
  {
    if x > 0 && y > 0 {
      AndCommutes(x / 2, y / 2);
    }
  }

  /** A textual mask is accepted exactly when it denotes the mask of a prefix length. */
  method ParseMask(s: string) returns (r: Option<nat>)
    ensures r == if Meaning(s).Some? && Contiguous(Meaning(s).value) then Meaning(s) else None
  {
    var parsed := ParseAddress(s);
    if parsed == None {
      return None;
    }
    var m := parsed.value;
    if m != 0 {
      TrailingOnesTest(m);
      var inverted := WORD32 - 1 - m;
      if BitAnd(inverted, (inverted + 1) % WORD32) != 0 {
        return None;
      }
    } else {
      assert m == MaskOf(0);
    }
    return Some(m);
  }

  /** The prefix length of a mask: a count of its ones. */
  method ToPrefixLength(mask: nat) returns (count: nat)
    ensures count == PopCount(mask)
  {
    var m := mask;
    count := 0;
    while m != 0
      invariant count + PopCount(m) == PopCount(mask)
    {
      count := count + m % 2;
      m := m / 2;
    }
  }

  /** Counting the ones of the mask of a prefix length gives the prefix length. */
  lemma PrefixRecovered(prefix: nat)
    requires prefix <= 32
    ensures PopCount(MaskOf(prefix)) == prefix
  {
    hide PopCount, Pow2;
    PopCountHighMask(32, 32 - prefix);
  }

  /** Contiguous masks of the same length are the same mask. */
  lemma LengthDeterminesMask(m: nat, n: nat)
    requires Contiguous(m) && Contiguous(n) && PopCount(m) == PopCount(n)
    ensures m == n
  {
    var p: nat :| p <= 32 && m == MaskOf(p);
    var q: nat :| q <= 32 && n == MaskOf(q);
    PrefixRecovered(p);
    PrefixRecovered(q);
  }

  /** Two addresses agree under a longer prefix only if they agree under a shorter one: covering prefixes nest. */
  lemma PrefixesNest(a: nat, b: nat, p: nat, q: nat)
    requires p <= q <= 32 && a < WORD32 && b < WORD32
    requires BitAnd(a, MaskOf(q)) == BitAnd(b, MaskOf(q))
    ensures BitAnd(a, MaskOf(p)) == BitAnd(b, MaskOf(p))
  {
    hide BitAnd, Pow2, MaskOf, Clear;
    var fine, steps, coarse := Pow2(32 - q), Pow2(q - p), Pow2(32 - p);
    Pow2Plus(32 - q, q - p);
    AndMask(a, q);
    AndMask(b, q);
    AndMask(a, p);
    AndMask(b, p);
    SameBlocks(a, b, fine, steps, coarse);
  }

  lemma SameBlocks(a: nat, b: nat, fine: nat, steps: nat, coarse: nat)
    requires fine >= 1 && steps >= 1 && coarse == fine * steps && coarse >= 1
    requires Clear(a, fine) == Clear(b, fine)
    ensures Clear(a, coarse) == Clear(b, coarse)
  {
    hide Clear;
    ClearMore(a, fine, steps, coarse);
    ClearMore(b, fine, steps, coarse);
  }

  /** The multiple of `d` at or below `x`. */
  function Clear(x: nat, d: nat): nat
    requires d >= 1
  {
    x - x % d
  }

  /** Masking with a prefix clears the bits below it. */
  lemma AndMask(x: nat, prefix: nat)
    requires prefix <= 32 && x < WORD32
    ensures BitAnd(x, MaskOf(prefix)) == Clear(x, Pow2(32 - prefix))
  {
    WordsArePowers();
    hide BitAnd, Pow2;
    AndHighMask(x, 32, 32 - prefix);
  }

  /** Clearing the low bits of fine blocks first does not change what is left of coarse blocks. */
  lemma ClearMore(x: nat, fine: nat, steps: nat, coarse: nat)
    requires fine >= 1 && steps >= 1 && coarse == fine * steps && coarse >= 1
    ensures Clear(x, coarse) == Clear(Clear(x, fine), coarse)
  {
    ModMod(x, fine, steps, coarse);
    var z := x % coarse;
    ClearBelow(x, coarse, z - z % fine);
  }

  lemma ClearBelow(x: nat, coarse: nat, r: nat)
    requires coarse >= 1 && r <= x % coarse
    ensures (x - x % coarse + r) % coarse == r
  {
    DivModIs(x - x % coarse + r, coarse, x / coarse, r);
  }
}
