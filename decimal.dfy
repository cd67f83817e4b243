/**
 * Exact decimal numbers and the two ways the page turns a number into text:
 * template interpolation (`${x}`, JavaScript's Number-to-String, which for an
 * exact non-zero decimal from 10^-6 up to 10^21 prints the shortest digits, with
 * no trailing zeros) and `toFixed(places)` (below 10^21: rounded to the nearest
 * multiple of 10^-places, ties upward, printed with exactly `places` fraction
 * digits). Outside those ranges JavaScript switches to exponent form, which is
 * not modelled. `Parse` reads such
 * text back, and is the partner the rendering functions are proved against.
 */
module Decimal {
  import opened Wrappers

  function Pow10(n: nat): (r: nat)
    ensures r >= 1
  {
    if n == 0 then 1 else 10 * Pow10(n - 1)
  }

  lemma Pow10Table()
    ensures Pow10(1) == 10 && Pow10(2) == 100 && Pow10(3) == 1000
    ensures Pow10(4) == 10000 && Pow10(5) == 100000
  {
    assert Pow10(0) == 1;
    assert Pow10(1) == 10;
    assert Pow10(2) == 100;
    assert Pow10(3) == 1000;
    assert Pow10(4) == 10000;
  }

  lemma {:induction false} Pow10Add(a: nat, b: nat)
    ensures Pow10(a + b) == Pow10(a) * Pow10(b)
  {
    if a > 0 {
      Pow10Add(a - 1, b);
      assert Pow10(a + b) == 10 * Pow10(a - 1 + b);
    }
  }

  lemma DivMod(m: nat, p: nat)
    requires p > 0
    ensures 0 <= m / p && 0 <= m % p < p
    ensures m == (m / p) * p + m % p
  {
  }

  /** Dropping a trailing zero digit keeps the value. */
  lemma DropZero(d: Dec, r: Dec)
    requires d.exp > 0 && d.mantissa % 10 == 0
    requires SameValue(r, Dec(d.mantissa / 10, d.exp - 1))
    ensures SameValue(r, d)
  {
    var m, e := d.mantissa / 10, d.exp - 1;
    assert d.mantissa == 10 * m;
    assert Pow10(d.exp) == 10 * Pow10(e);
    calc {
      r.mantissa * Pow10(d.exp);
      10 * (r.mantissa * Pow10(e));
      10 * (m * Pow10(r.exp));
      d.mantissa * Pow10(r.exp);
    }
  }

  /** Rounding `m` up from half a step of 10^n lands within half a step of it. */
  lemma NearestMultiple(m: nat, n: nat)
    requires n > 0
    ensures var p, half := Pow10(n), 5 * Pow10(n - 1);
      var q := (m + half) / p;
      q >= 0 && 2 * m < 2 * (q * p) + p && 2 * (q * p) <= 2 * m + p
  {
    var p, half := Pow10(n), 5 * Pow10(n - 1);
    assert p == 2 * half;
    DivMod(m + half, p);
  }

  /** The number mantissa * 10^-exp. */
  datatype Dec = Dec(mantissa: nat, exp: nat)

  /** `a` and `b` denote the same number. */
  predicate SameValue(a: Dec, b: Dec) {
    a.mantissa * Pow10(b.exp) == b.mantissa * Pow10(a.exp)
  }

  predicate IsDigit(c: char) {
    '0' <= c <= '9'
  }

  predicate AllDigits(s: string) {
    forall i :: 0 <= i < |s| ==> IsDigit(s[i])
  }

  function DigitValue(c: char): nat
    requires IsDigit(c)
  {
    (c as int) - ('0' as int)
  }

  function DigitChar(d: nat): (c: char)
    requires d < 10
    ensures IsDigit(c) && DigitValue(c) == d
  {
    (('0' as int) + d) as char
  }

  /** The number a string of decimal digits denotes. */
  function DigitsValue(s: string): nat
    requires AllDigits(s)
  {
    if s == [] then 0 else 10 * DigitsValue(s[..|s| - 1]) + DigitValue(s[|s| - 1])
  }

  /** The decimal digits of `n`, with no leading zero. */
  function NatDigits(n: nat): (r: string)
    ensures |r| >= 1 && AllDigits(r)
    ensures DigitsValue(r) == n
    ensures r[0] == '0' <==> n == 0
  {
    if n < 10 then [DigitChar(n)]
    else
      var r := NatDigits(n / 10) + [DigitChar(n % 10)];
      assert r[..|r| - 1] == NatDigits(n / 10);
      r
  }

  /** Exactly `width` decimal digits denoting `f`, padded with leading zeros. */
  function FixedDigits(f: nat, width: nat): (r: string)
    requires f < Pow10(width)
    ensures |r| == width && AllDigits(r)
    ensures DigitsValue(r) == f
  {
    if width == 0 then ""
    else
      var r := FixedDigits(f / 10, width - 1) + [DigitChar(f % 10)];
      assert r[..|r| - 1] == FixedDigits(f / 10, width - 1);
      r
  }

  /** The whole part, then a point and `width` fraction digits unless `width` is 0. */
  function PointText(whole: nat, fraction: nat, width: nat): string
    requires fraction < Pow10(width)
  {
    NatDigits(whole) + (if width == 0 then "" else "." + FixedDigits(fraction, width))
  }

  /** `d` printed with exactly `d.exp` fraction digits, and no point when there are none. */
  function Render(d: Dec): string {
    var p := Pow10(d.exp);
    DivMod(d.mantissa, p);
    PointText(d.mantissa / p, d.mantissa % p, d.exp)
  }

  /** `d` with trailing zero fraction digits dropped. */
  function Normalize(d: Dec): (r: Dec)
    ensures SameValue(r, d)
    ensures r.exp == 0 || r.mantissa % 10 != 0
    ensures r.exp <= d.exp
    decreases d.exp
  {
    if d.exp > 0 && d.mantissa % 10 == 0 then
      var r := Normalize(Dec(d.mantissa / 10, d.exp - 1));
      DropZero(d, r);
      r
    else d
  }

  /** `${x}` for the number `d`: the shortest text that denotes it. */
  function ShortestText(d: Dec): string {
    Render(Normalize(d))
  }

  /** Appending zero digits keeps the value. */
  lemma PadZeros(d: Dec, places: nat)
    requires places >= d.exp
    ensures SameValue(Dec(d.mantissa * Pow10(places - d.exp), places), d)
  {
    Pow10Add(places - d.exp, d.exp);
    assert d.mantissa * Pow10(places - d.exp) * Pow10(d.exp) == d.mantissa * (Pow10(places - d.exp) * Pow10(d.exp));
  }

  /** `d` rounded to `places` fraction digits, to the nearest, ties upward. */
  function RoundTo(d: Dec, places: nat): (r: Dec)
    ensures r.exp == places
    ensures places >= d.exp ==> SameValue(r, d)
    ensures places < d.exp ==>
      var p := Pow10(d.exp - places);
      2 * d.mantissa < 2 * (r.mantissa * p) + p && 2 * (r.mantissa * p) <= 2 * d.mantissa + p
  {
    if places >= d.exp then
      var r := Dec(d.mantissa * Pow10(places - d.exp), places);
      PadZeros(d, places);
      r
    else
      var p := Pow10(d.exp - places);
      var half := 5 * Pow10(d.exp - places - 1);
      var q := (d.mantissa + half) / p;
      NearestMultiple(d.mantissa, d.exp - places);
      Dec(q, places)
  }

  /** `x.toFixed(places)` for the number `d`. */
  function FixedText(d: Dec, places: nat): string {
    Render(RoundTo(d, places))
  }

  /** Index of the first `c` in `s`, or `|s|` when there is none. */
  function IndexOf(s: string, c: char): (k: nat)
    ensures k <= |s|
    ensures forall j :: 0 <= j < k ==> s[j] != c
    ensures k < |s| ==> s[k] == c
  {
    if |s| == 0 then 0
    else if s[0] == c then 0
    else 1 + IndexOf(s[1..], c)
  }

  /** Reads text of the form digits or digits.digits back as a decimal. */
  function Parse(s: string): Option<Dec> {
    var k := IndexOf(s, '.');
    if k == |s| then
      if |s| > 0 && AllDigits(s) then Some(Dec(DigitsValue(s), 0)) else None
    else
      var whole, fraction := s[..k], s[k + 1..];
      if |whole| > 0 && |fraction| > 0 && AllDigits(whole) && AllDigits(fraction)
      then Some(Dec(DigitsValue(whole) * Pow10(|fraction|) + DigitsValue(fraction), |fraction|))
      else None
  }

  /** The first `c` in `a + [c] + b`, when `a` has none, is the one after `a`. */
  lemma IndexOfAfter(a: string, c: char, b: string)
    requires c !in a
    ensures IndexOf(a + [c] + b, c) == |a|
  {
    var s := a + [c] + b;
    assert s[|a|] == c;
    assert forall j :: 0 <= j < |a| ==> s[j] == a[j] && a[j] != c;
  }

  lemma DigitsHaveNoPoint(s: string)
    requires AllDigits(s)
    ensures '.' !in s
  {
    forall i | 0 <= i < |s| ensures s[i] != '.' {
      assert IsDigit(s[i]);
    }
  }

  /** Text made of digits alone reads back as a whole number. */
  lemma WholeParses(whole: string)
    requires |whole| > 0 && AllDigits(whole)
    ensures Parse(whole) == Some(Dec(DigitsValue(whole), 0))
  {
    DigitsHaveNoPoint(whole);
    var k := IndexOf(whole, '.');
    if k < |whole| {
      assert false;
    }
  }

  /** Digits, a point and digits read back as the number they spell. */
  lemma PointedParses(whole: string, fraction: string)
    requires |whole| > 0 && AllDigits(whole)
    requires |fraction| > 0 && AllDigits(fraction)
    ensures Parse(whole + "." + fraction).Some?
    ensures Parse(whole + "." + fraction).value.exp == |fraction|
    ensures Parse(whole + "." + fraction).value.mantissa
         == DigitsValue(whole) * Pow10(|fraction|) + DigitsValue(fraction)
  {
    DigitsHaveNoPoint(whole);
    var s := whole + "." + fraction;
    IndexOfAfter(whole, '.', fraction);
    var k := IndexOf(s, '.');
    assert s[..k] == whole;
    assert s[k + 1..] == fraction;
  }

  lemma PointTextParses(whole: nat, fraction: nat, width: nat)
    requires fraction < Pow10(width)
    ensures Parse(PointText(whole, fraction, width)).Some?
    ensures Parse(PointText(whole, fraction, width)).value.exp == width
    ensures Parse(PointText(whole, fraction, width)).value.mantissa == whole * Pow10(width) + fraction
  {
    if width == 0 {
      assert PointText(whole, fraction, width) == NatDigits(whole);
      WholeParses(NatDigits(whole));
    } else {
      assert PointText(whole, fraction, width) == NatDigits(whole) + "." + FixedDigits(fraction, width);
      PointedParses(NatDigits(whole), FixedDigits(fraction, width));
    }
  }

  /** The printed form of a decimal reads back as exactly that decimal. */
  lemma RenderParses(d: Dec)
    ensures Parse(Render(d)) == Some(d)
  {
    var p := Pow10(d.exp);
    DivMod(d.mantissa, p);
    PointTextParses(d.mantissa / p, d.mantissa % p, d.exp);
  }

  /** The printed form has digits before any point, with no leading zero unless they are a lone 0. */
  lemma RenderCanonical(d: Dec)
    ensures var t := Render(d);
      var k := IndexOf(t, '.');
      0 < k && (t[0] == '0' ==> k == 1)
  {
    var p := Pow10(d.exp);
    DivMod(d.mantissa, p);
    var whole := NatDigits(d.mantissa / p);
    DigitsHaveNoPoint(whole);
    if d.exp == 0 {
      assert Render(d) == whole;
      var k := IndexOf(whole, '.');
      if k < |whole| {
        assert false;
      }
    } else {
      assert Render(d) == whole + "." + FixedDigits(d.mantissa % p, d.exp);
      IndexOfAfter(whole, '.', FixedDigits(d.mantissa % p, d.exp));
    }
  }

  /**
   * `${x}` reads back as the same number, with no trailing zero fraction digit and
   * no leading zero before the point unless the whole part is a lone 0.
   */
  lemma ShortestTextParses(d: Dec)
    ensures Parse(ShortestText(d)).Some?
    ensures SameValue(Parse(ShortestText(d)).value, d)
    ensures Parse(ShortestText(d)).value.exp == 0 || Parse(ShortestText(d)).value.mantissa % 10 != 0
    ensures var t := ShortestText(d);
      var k := IndexOf(t, '.');
      0 < k && (t[0] == '0' ==> k == 1)
  {
    RenderParses(Normalize(d));
    RenderCanonical(Normalize(d));
  }

  /**
   * `toFixed(places)` reads back as the rounded number, with exactly `places` fraction
   * digits and no leading zero before the point unless the whole part is a lone 0.
   */
  lemma FixedTextParses(d: Dec, places: nat)
    ensures Parse(FixedText(d, places)) == Some(RoundTo(d, places))
    ensures var t := FixedText(d, places);
      var k := IndexOf(t, '.');
      0 < k && (t[0] == '0' ==> k == 1)
  {
    RenderParses(RoundTo(d, places));
    RenderCanonical(RoundTo(d, places));
  }
}
