/** The text form of a price key in the snapshot: Python's `str(price)` of a
    float rounded to four decimals, and `float(text)` back. */
module Decimal {
  import opened Records

  function Pow10(k: nat): (r: nat)
    ensures r >= 1
  {
    if k == 0 then 1 else 10 * Pow10(k - 1)
  }

  predicate IsDigit(c: char)
  {
    '0' <= c <= '9'
  }

  function DigitChar(d: nat): (c: char)
    requires d < 10
    ensures IsDigit(c)
  {
    (('0' as int) + d) as char
  }

  predicate AllDigits(s: string)
  {
    forall i :: 0 <= i < |s| ==> IsDigit(s[i])
  }

  /** The number a string of digits denotes. */
  function DigitsValue(s: string): nat
    requires AllDigits(s)
  {
    if s == [] then 0
    else DigitsValue(s[..|s| - 1]) * 10 + ((s[|s| - 1] as int) - ('0' as int))
  }

  /** Decimal text of `n` without leading zeros ("0" for zero). */
  function NatText(n: nat): (s: string)
    ensures s != [] && AllDigits(s)
  {
    if n < 10 then [DigitChar(n)] else NatText(n / 10) + [DigitChar(n % 10)]
  }

  /** Exactly `w` decimal digits of `v`, with leading zeros. */
  function Padded(v: nat, w: nat): (s: string)
    ensures |s| == w && AllDigits(s)
  {
    if w == 0 then [] else Padded(v / 10, w - 1) + [DigitChar(v % 10)]
  }

  /** The fractional digits Python prints for `f` ten-thousandths: trailing
      zeros dropped, but at least one digit. */
  function FracText(f: nat): (s: string)
    requires f < 10000
    ensures 1 <= |s| <= 4 && AllDigits(s)
  {
    if f % 1000 == 0 then Padded(f / 1000, 1)
    else if f % 100 == 0 then Padded(f / 100, 2)
    else if f % 10 == 0 then Padded(f / 10, 3)
    else Padded(f, 4)
  }

  /** `str(price)` for a price of at most four decimals: "100.0", "0.5",
      "-0.0005". */
  function PriceText(t: Tick): (s: string)
    ensures s != []
  {
    (if t < 0 then "-" else "") + NatText(Abs(t) / 10000) + "." + FracText(Abs(t) % 10000)
  }

  /** Index of the first '.', or |s| when there is none. */
  function DotIndex(s: string): (k: nat)
    ensures k <= |s|
    ensures forall i :: 0 <= i < k ==> s[i] != '.'
    ensures k < |s| ==> s[k] == '.'
  {
    if s == [] then 0
    else if s[0] == '.' then 0
    else 1 + DotIndex(s[1..])
  }

  /** The value of an unsigned numeral `digits[.digits]` with at most four
      fractional digits, in ten-thousandths. */
  function ParseNumeral(body: string): Option<nat>
  {
    var k := DotIndex(body);
    var whole := body[..k];
    var frac := if k < |body| then body[k + 1..] else "";
    if whole == [] || !AllDigits(whole) || !AllDigits(frac) || |frac| > 4 || (k < |body| && frac == [])
    then None
    else Some(DigitsValue(whole) * 10000 + DigitsValue(frac) * Pow10(4 - |frac|))
  }

  /** `float(text)` restricted to numerals of the form `[-]digits[.digits]`
      with at most four fractional digits, the form `str(price)` writes.
      Every other text is `None`, including texts `float` accepts ("5.",
      "1e2", "+1.5", surrounding blanks, longer fractions, "inf"). */
  function ParsePrice(s: string): (r: Option<Tick>)
  {
    if |s| > 0 && s[0] == '-' then
      match ParseNumeral(s[1..])
      case None => None
      case Some(v) => Some(-(v as int))
    else
      match ParseNumeral(s)
      case None => None
      case Some(v) => Some(v)
  }

  lemma {:induction false} NatTextValue(n: nat)
    ensures DigitsValue(NatText(n)) == n
  {
    if n >= 10 {
      NatTextValue(n / 10);
      var s := NatText(n);
      assert s[..|s| - 1] == NatText(n / 10);
    }
  }

  lemma {:induction false} PaddedValue(v: nat, w: nat)
    requires v < Pow10(w)
    ensures DigitsValue(Padded(v, w)) == v
  {
    if w > 0 {
      PaddedValue(v / 10, w - 1);
      var s := Padded(v, w);
      assert s[..|s| - 1] == Padded(v / 10, w - 1);
    }
  }

  lemma FracTextValue(f: nat)
    requires f < 10000
    ensures DigitsValue(FracText(f)) * Pow10(4 - |FracText(f)|) == f
  {
    if f % 1000 == 0 {
      FracOneDigit(f);
      assert Pow10(3) == 1000;
    } else if f % 100 == 0 {
      FracTwoDigits(f);
      assert Pow10(2) == 100;
    } else if f % 10 == 0 {
      FracThreeDigits(f);
      assert Pow10(1) == 10;
    } else {
      PaddedValue(f, 4);
      assert Pow10(0) == 1;
    }
  }

  lemma FracOneDigit(f: nat)
    requires f < 10000 && f % 1000 == 0
    ensures DigitsValue(Padded(f / 1000, 1)) * 1000 == f
  {
    assert Pow10(1) == 10;
    PaddedValue(f / 1000, 1);
  }

  lemma FracTwoDigits(f: nat)
    requires f < 10000 && f % 100 == 0
    ensures DigitsValue(Padded(f / 100, 2)) * 100 == f
  {
    assert Pow10(2) == 100;
    PaddedValue(f / 100, 2);
  }

  lemma FracThreeDigits(f: nat)
    requires f < 10000 && f % 10 == 0
    ensures DigitsValue(Padded(f / 10, 3)) * 10 == f
  {
    assert Pow10(3) == 1000;
    PaddedValue(f / 10, 3);
  }

  lemma DigitsHaveNoDot(s: string)
    requires AllDigits(s)
    ensures forall i :: 0 <= i < |s| ==> s[i] != '.' && s[i] != '-'
  {
  }

  lemma DotIndexAfterDigits(d: string, rest: string)
    requires AllDigits(d)
    requires rest != [] && rest[0] == '.'
    ensures DotIndex(d + rest) == |d|
  {
    if d != [] {
      assert (d + rest)[1..] == d[1..] + rest;
      DotIndexAfterDigits(d[1..], rest);
    } else {
      assert d + rest == rest;
    }
  }

  function NumeralValue(whole: string, frac: string): int
    requires AllDigits(whole) && AllDigits(frac) && |frac| <= 4
  {
    DigitsValue(whole) * 10000 + DigitsValue(frac) * Pow10(4 - |frac|)
  }

  lemma ParseUnsigned(whole: string, frac: string)
    requires whole != [] && AllDigits(whole) && AllDigits(frac) && 1 <= |frac| <= 4
    ensures ParseNumeral(whole + "." + frac) == Some(NumeralValue(whole, frac))
  {
    var body := whole + "." + frac;
    assert body == whole + ("." + frac);
    DotIndexAfterDigits(whole, "." + frac);
    assert body[..|whole|] == whole;
    assert body[|whole| + 1..] == frac;
  }

  /** The unsigned part of `PriceText(t)`. */
  function MagnitudeText(t: Tick): string
  {
    NatText(Abs(t) / 10000) + "." + FracText(Abs(t) % 10000)
  }

  lemma MagnitudeRoundTrip(t: Tick)
    ensures ParseNumeral(MagnitudeText(t)) == Some(Abs(t))
  {
    var q, f := Abs(t) / 10000, Abs(t) % 10000;
    var whole, frac := NatText(q), FracText(f);
    NatTextValue(q);
    FracTextValue(f);
    assert NumeralValue(whole, frac) == q * 10000 + f;
    ParseUnsigned(whole, frac);
  }

  /** Loading a saved key gives back the price it was saved under. */
  lemma PriceTextRoundTrip(t: Tick)
    ensures ParsePrice(PriceText(t)) == Some(t)
  {
    var body := MagnitudeText(t);
    MagnitudeRoundTrip(t);
    MagnitudeLead(t);
    PriceTextShape(t);
    if t < 0 {
      ParseNegative("-" + body, body, Abs(t));
    } else {
      ParseNonNegative(body, Abs(t));
    }
  }

  lemma PriceTextShape(t: Tick)
    ensures PriceText(t) == if t < 0 then "-" + MagnitudeText(t) else MagnitudeText(t)
  {
  }

  lemma MagnitudeLead(t: Tick)
    ensures |MagnitudeText(t)| > 0 && MagnitudeText(t)[0] != '-'
  {
    var w := NatText(Abs(t) / 10000);
    assert IsDigit(w[0]);
    assert MagnitudeText(t)[0] == w[0];
  }

  lemma ParseNegative(s: string, body: string, v: nat)
    requires s == "-" + body && ParseNumeral(body) == Some(v)
    ensures ParsePrice(s) == Some(-(v as int))
  {
    assert s[1..] == body;
  }

  lemma ParseNonNegative(s: string, v: nat)
    requires |s| > 0 && s[0] != '-' && ParseNumeral(s) == Some(v)
    ensures ParsePrice(s) == Some(v)
  {
  }

  /** Distinct prices are saved under distinct keys. */
  lemma PriceTextInjective(t: Tick, u: Tick)
    requires PriceText(t) == PriceText(u)
    ensures t == u
  {
    PriceTextRoundTrip(t);
    PriceTextRoundTrip(u);
  }
}
