/**
 * Digit filtering and base-10 parsing of price texts: the regular-expression
 * replacement `/[^0-9]/g` and `parseInt(…, 10)`, together with the decimal
 * renderings (plain and with thousands separators) they invert.
 */
module Decimal {

  /** A character of the regular-expression class `[0-9]`: ASCII digits only. */
  predicate IsDigit(c: char) {
    '0' <= c <= '9'
  }

  predicate AllDigits(s: string) {
    forall i :: 0 <= i < |s| ==> IsDigit(s[i])
  }

  predicate HasDigit(s: string) {
    exists i :: 0 <= i < |s| && IsDigit(s[i])
  }

  /** Every non-digit removed, the digits kept in their order. */
  function Digits(s: string): (d: string)
    ensures AllDigits(d)
    ensures |d| <= |s|
    ensures |d| == 0 <==> !HasDigit(s)
    ensures |d| == |s| <==> AllDigits(s)
  {
    if |s| == 0 then ""
    else
      var init := s[..|s| - 1];
      assert forall i :: 0 <= i < |init| ==> init[i] == s[i];
      assert HasDigit(s) <==> HasDigit(init) || IsDigit(s[|s| - 1]);
      if IsDigit(s[|s| - 1]) then Digits(init) + [s[|s| - 1]] else Digits(init)
  }

  /** Filtering distributes over concatenation: nothing is reordered across a boundary. */
  lemma {:induction false} DigitsAppend(a: string, b: string)
    ensures Digits(a + b) == Digits(a) + Digits(b)
  {
    if |b| == 0 {
      assert a + b == a;
    } else {
      var b' := b[..|b| - 1];
      assert (a + b)[..|a + b| - 1] == a + b';
      DigitsAppend(a, b');
    }
  }

  /** A text made of digits only passes the filter unchanged. */
  lemma DigitsOfDigits(s: string)
    requires AllDigits(s)
    ensures Digits(s) == s
  {
    var d := Digits(s);
    assert |d| == |s|;
    if |s| > 0 {
      assert s[..|s| - 1] + [s[|s| - 1]] == s;
      DigitsOfDigits(s[..|s| - 1]);
    }
  }

  function DigitValue(c: char): (v: nat)
    requires IsDigit(c)
    ensures v < 10
  {
    c as int - '0' as int
  }

  function DigitChar(v: nat): (c: char)
    requires v < 10
    ensures IsDigit(c) && DigitValue(c) == v
  {
    ('0' as int + v) as char
  }

  function Pow10(k: nat): (p: nat)
    ensures p >= 1
  {
    if k == 0 then 1 else 10 * Pow10(k - 1)
  }

  /** The base-10 value of a digit string, most significant digit first. */
  function ParseDecimal(s: string): (n: nat)
    requires AllDigits(s)
    ensures n < Pow10(|s|)
  {
    if |s| == 0 then 0
    else
      var init := s[..|s| - 1];
      assert AllDigits(init);
      var m := ParseDecimal(init);
      assert 10 * m + 9 < 10 * Pow10(|init|) by {
        assert m + 1 <= Pow10(|init|);
      }
      10 * m + DigitValue(s[|s| - 1])
  }

  /** The digits of `b` are the low-order places of `a + b`. */
  lemma {:induction false} ParseDecimalAppend(a: string, b: string)
    requires AllDigits(a) && AllDigits(b)
    ensures AllDigits(a + b)
    ensures ParseDecimal(a + b) == ParseDecimal(a) * Pow10(|b|) + ParseDecimal(b)
  {
    if |b| == 0 {
      assert a + b == a;
    } else {
      var b' := b[..|b| - 1];
      assert (a + b)[..|a + b| - 1] == a + b';
      assert AllDigits(b');
      ParseDecimalAppend(a, b');
      ShiftPlace(ParseDecimal(a), Pow10(|b'|), ParseDecimal(b'), DigitValue(b[|b| - 1]));
    }
  }

  /** One more low-order digit multiplies the high part's place value by ten. */
  lemma ShiftPlace(x: nat, p: nat, y: nat, c: nat)
    ensures 10 * (x * p + y) + c == x * (10 * p) + (10 * y + c)
  {
  }

  /** Leading zeros do not change the value: `parseInt("007", 10)` is 7. */
  lemma ParseDecimalLeadingZero(s: string)
    requires AllDigits(s)
    ensures AllDigits("0" + s)
    ensures ParseDecimal("0" + s) == ParseDecimal(s)
  {
    ParseDecimalAppend("0", s);
  }

  predicate AllZeros(s: string) {
    forall i :: 0 <= i < |s| ==> s[i] == '0'
  }

  /** The value is zero exactly when every digit is `0`. */
  lemma {:induction false} ParseDecimalZeroIff(s: string)
    requires AllDigits(s)
    ensures ParseDecimal(s) == 0 <==> AllZeros(s)
  {
    if |s| > 0 {
      var init := s[..|s| - 1];
      ParseDecimalZeroIff(init);
      assert forall i :: 0 <= i < |init| ==> init[i] == s[i];
    }
  }

  /** The shortest decimal rendering of `n`. */
  function Render(n: nat): (s: string)
    ensures AllDigits(s) && |s| >= 1
    ensures s[0] == '0' ==> n == 0 && |s| == 1
    decreases n
  {
    if n < 10 then [DigitChar(n)] else Render(n / 10) + [DigitChar(n % 10)]
  }

  /** Parsing undoes rendering. */
  lemma {:induction false} ParseRender(n: nat)
    ensures ParseDecimal(Render(n)) == n
    decreases n
  {
    if n >= 10 {
      var s := Render(n);
      assert s[..|s| - 1] == Render(n / 10);
      ParseRender(n / 10);
    }
  }

  /** A digit string without superfluous leading zeros. */
  predicate Canonical(s: string) {
    |s| >= 1 && AllDigits(s) && (s[0] == '0' ==> |s| == 1)
  }

  /** Rendering undoes parsing on canonical digit strings. */
  lemma {:induction false} RenderParse(s: string)
    requires Canonical(s)
    ensures Render(ParseDecimal(s)) == s
  {
    var n := ParseDecimal(s);
    if |s| == 1 {
      assert n == DigitValue(s[0]);
    } else {
      var init := s[..|s| - 1];
      assert init[0] == s[0];
      assert Canonical(init);
      ParseDecimalZeroIff(init);
      var m := ParseDecimal(init);
      assert m >= 1;
      var d := DigitValue(s[|s| - 1]);
      assert n == 10 * m + d;
      assert n / 10 == m && n % 10 == d;
      RenderParse(init);
      assert DigitChar(d) == s[|s| - 1];
      assert Render(n) == init + [s[|s| - 1]];
      assert init + [s[|s| - 1]] == s;
    }
  }

  /** A three-digit group of a thousands-separated number, zero-padded. */
  function Pad3(m: nat): (s: string)
    requires m < 1000
    ensures AllDigits(s) && |s| == 3
  {
    [DigitChar(m / 100), DigitChar(m / 10 % 10), DigitChar(m % 10)]
  }

  /** `n` with a comma between thousands groups, e.g. "1,195,000". */
  function Grouped(n: nat): (s: string)
    ensures |s| >= 1
    decreases n
  {
    if n < 1000 then Render(n) else Grouped(n / 1000) + "," + Pad3(n % 1000)
  }

  lemma ParsePad3(m: nat)
    requires m < 1000
    ensures ParseDecimal(Pad3(m)) == m
  {
    var s := Pad3(m);
    assert s[..2][..1] == [s[0]];
    assert ParseDecimal(s[..2][..1]) == m / 100;
    assert ParseDecimal(s[..2]) == 10 * (m / 100) + m / 10 % 10;
  }

  /** Stripping the separators of a grouped rendering and parsing gives back the number. */
  lemma {:induction false} ParseGrouped(n: nat)
    ensures ParseDecimal(Digits(Grouped(n))) == n
    decreases n
  {
    if n < 1000 {
      DigitsOfDigits(Render(n));
      ParseRender(n);
    } else {
      var g := Grouped(n / 1000);
      var p := Pad3(n % 1000);
      GroupDigits(g, p);
      assert Digits(Grouped(n)) == Digits(g) + p;
      ParseDecimalAppend(Digits(g), p);
      ParseGrouped(n / 1000);
      ParsePad3(n % 1000);
      DivMod1000(n);
    }
  }

  /** The separator contributes nothing to the digits of a grouped rendering. */
  lemma GroupDigits(g: string, p: string)
    requires AllDigits(p)
    ensures Digits(g + "," + p) == Digits(g) + p
  {
    DigitsAppend(g + ",", p);
    DigitsAppend(g, ",");
    assert !HasDigit(",") by {
      assert !IsDigit(',');
    }
    DigitsOfDigits(p);
  }

  lemma DivMod1000(n: nat)
    ensures (n / 1000) * Pow10(3) + n % 1000 == n
  {
    assert Pow10(3) == 1000;
  }
}
