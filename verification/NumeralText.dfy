/**
 The printed form of a number and the meaning of a numeral, in terms of decimal digits.
 */
module NumeralText {
  import opened Text
  import opened Numbers
  import opened NumberText

  // ---------------------------------------------------------------- digits

  /** Reading digits side by side and cutting them apart again. */
  lemma {:induction false} CutRead(w: nat, fr: string)
    requires All(fr, IsDigit)
    ensures var n := NatOf(Digits(w) + fr); Whole(n, |fr|) == w && Padded(n, |fr|) == fr
    decreases |fr|
  {
    if fr == "" {
      assert Digits(w) + fr == Digits(w);
      NatOfDigits(w);
    } else {
      var init, c := fr[..|fr| - 1], fr[|fr| - 1];
      CutRead(w, init);
      assert fr == init + [c];
      LastDigit(w, init, c);
    }
  }

  lemma LastDigit(w: nat, init: string, c: char)
    requires All(init, IsDigit) && IsDigit(c)
    requires var n := NatOf(Digits(w) + init); Whole(n, |init|) == w && Padded(n, |init|) == init
    ensures var n := NatOf(Digits(w) + (init + [c])); Whole(n, |init| + 1) == w && Padded(n, |init| + 1) == init + [c]
  {
    hide NatOf, Digits, All;
    assert Digits(w) + (init + [c]) == (Digits(w) + init) + [c];
    NatOfSnoc(Digits(w) + init, c);
    DigitIs(c);
  }

  lemma DigitIs(c: char)
    requires IsDigit(c)
    ensures 0 <= DigitValue(c) < 10 && DigitChar(DigitValue(c)) == c
  {
  }

  /** One more zero changes neither the whole part nor the stripped fraction. */
  lemma TextScales(n: nat, d: nat)
    ensures IntPart(10 * n, d + 1) == IntPart(n, d) && FracPart(10 * n, d + 1) == FracPart(n, d)
  {
    assert (10 * n) / 10 == n && (10 * n) % 10 == 0;
    var p := Padded(n, d);
    assert Padded(10 * n, d + 1) == p + ['0'];
    assert (p + ['0'])[..|p|] == p;
  }

  /** The six-digit form of a short decimal, and the texts made of it. */
  lemma {:induction false} ScaledText(m: nat, d: nat) returns (n: nat, p: nat)
    requires 0 < m < 1_000_000
    ensures 100_000 <= n < 1_000_000 && p >= d
    ensures Times(m as real, Pow10(0 - d)) == Times(n as real, Pow10(0 - p))
    ensures IntPart(n, p) == IntPart(m, d) && FracPart(n, p) == FracPart(m, d)
    ensures TenTo(d) <= m < TenTo(d + 1) ==> TenTo(p) <= n < TenTo(p + 1)
    decreases 1_000_000 - m
  {
    hide IntPart, FracPart, Times, Pow10;
    if m >= 100_000 {
      n, p := m, d;
    } else {
      Tenfold(m, 0 - d);
      TextScales(m, d);
      TenToNext(d);
      TenToNext(d + 1);
      n, p := ScaledText(10 * m, d + 1);
    }
  }

  lemma TenToNext(d: nat)
    ensures TenTo(d + 1) == 10 * TenTo(d)
  {
  }

  lemma {:induction false} NoZerosToStrip(s: string)
    requires s == "" || s[|s| - 1] != '0'
    ensures StripZeros(s) == s
  {
  }

  lemma ScaleBounds(v: real, e: int)
    requires v > 0.0 && Pow10(e) <= v
    ensures Mag(v) >= e
  {
    hide Pow10, Mag;
    MagBounds(v);
    TenTimesMore(Mag(v) + 1);
    if Mag(v) + 1 < e { Pow10Mono(Mag(v) + 1, e); }
  }

  lemma ScaleUpperBound(v: real, e: int)
    requires v > 0.0 && v < Pow10(e)
    ensures Mag(v) < e
  {
    hide Pow10, Mag;
    MagBounds(v);
    TenTimesMore(e);
    if Mag(v) > e { Pow10Mono(e, Mag(v)); }
  }

  lemma TenTimesMore(e: int)
    ensures 10.0 * Pow10(e) > Pow10(e)
  {
  }

  // ---------------------------------------------------------------- printing

  /**
   Fixed notation: a decimal of at most six significant digits that is at least 0.0001 and below a million is printed as
   its whole part, a point and its fraction without trailing zeros; a whole number as its digits alone.
   */
  lemma {:induction false} PrintDecimal(w: nat, fr: string)
    requires All(fr, IsDigit) && (fr != "" ==> fr[|fr| - 1] != '0')
    requires 0 < NatOf(Digits(w) + fr) < 1_000_000
    requires Times(NatOf(Digits(w) + fr) as real, Pow10(0 - |fr|)) >= Pow10(-4)
    ensures var v := Times(NatOf(Digits(w) + fr) as real, Pow10(0 - |fr|));
            && PrintNum(Finite(v)) == Digits(w) + (if fr == "" then "" else "." + fr)
            && PrintNum(Finite(-v)) == "-" + (Digits(w) + (if fr == "" then "" else "." + fr))
  {
    hide Times, Pow10, Mag, ToSci, NatOf, Digits, IntPart, FracPart;
    var m := NatOf(Digits(w) + fr);
    var v := Times(m as real, Pow10(0 - |fr|));
    var n, p := ScaledText(m, |fr|);
    var f: int := p;
    ToSciFixed(n, -f);
    MagSixDigits(n, -f);
    ScaleBounds(v, -4);
    BelowMillion(m, |fr|);
    ScaleUpperBound(v, 6);
    PlainParts(w, fr);
    assert Joined(IntPart(n, p), FracPart(n, p), "") == Digits(w) + (if fr == "" then "" else "." + fr);
    assert ToSci(v) == Sci(n, 5 - f);
    TextOf(v, Sci(n, 5 - f), p);
  }

  lemma PlainParts(w: nat, fr: string)
    requires All(fr, IsDigit) && (fr != "" ==> fr[|fr| - 1] != '0')
    ensures var m := NatOf(Digits(w) + fr);
            && IntPart(m, |fr|) == Digits(w) && FracPart(m, |fr|) == fr
            && Joined(Digits(w), fr, "") == Digits(w) + (if fr == "" then "" else "." + fr)
  {
    hide NatOf, Digits, Whole, Padded;
    CutRead(w, fr);
    NoZerosToStrip(fr);
    assert Fraction(fr) + "" == Fraction(fr);
  }

  lemma TextOf(v: real, s: Sci, p: nat)
    requires v > 0.0 && ToSci(v) == s && s.exp == 5 - p && -4 <= s.exp < 6
    ensures PrintNum(Finite(v)) == Joined(IntPart(s.digits, p), FracPart(s.digits, p), "")
    ensures PrintNum(Finite(-v)) == "-" + Joined(IntPart(s.digits, p), FracPart(s.digits, p), "")
  {
    hide ToSci, IntPart, FracPart, Joined;
  }

  lemma BelowMillion(m: nat, d: nat)
    requires 0 < m < 1_000_000
    ensures 0.0 < Times(m as real, Pow10(0 - d)) < Pow10(6)
  {
    SixPowers();
    if d > 0 { Pow10Mono(0 - d, 0); }
    assert 0.0 < Pow10(0 - d) <= 1.0;
    MulMono(Pow10(0 - d), 1.0, m as real);
  }

  /** Below a million a whole number is printed as its digits. */
  lemma PrintWhole(n: nat)
    requires n < 1_000_000
    ensures PrintNum(Finite(n as real)) == Digits(n)
  {
    hide Digits, PrintNum, Pow10;
    if n == 0 {
      ZeroDigits();
    } else {
      assert Digits(n) + "" == Digits(n);
      NatOfDigits(n);
      ZeroPower();
      SmallPower();
      PrintDecimal(n, "");
      assert Times(n as real, Pow10(0)) == n as real;
    }
  }

  lemma ZeroDigits()
    ensures PrintNum(Finite(0.0)) == Digits(0)
  {
  }

  lemma ZeroPower()
    ensures Pow10(0) == 1.0
  {
  }

  lemma SmallPower()
    ensures Pow10(-4) < 1.0
  {
    Pow10Mono(-4, 0);
    ZeroPower();
  }

  /** The sign and at least two digits of an exponent. */
  function ExponentOf(e: int): string {
    var k := if e < 0 then 0 - e else e;
    (if e < 0 then "e-" else "e+") + (if k < 10 then "0" else "") + Digits(k)
  }

  /**
   Scientific notation: a decimal of at most six significant digits that is below 0.0001 or at least a million is
   printed with one digit before the point and an exponent.
   */
  lemma {:induction false} PrintScientific(c: nat, fr: string, e: int)
    requires 1 <= c <= 9 && All(fr, IsDigit) && |fr| <= 5 && (fr != "" ==> fr[|fr| - 1] != '0')
    requires e < -4 || e >= 6
    ensures var v := Times(NatOf(Digits(c) + fr) as real, Pow10(e - |fr|));
            v > 0.0 && PrintNum(Finite(v)) == Digits(c) + (if fr == "" then "" else "." + fr) + ExponentOf(e)
  {
    hide Times, Pow10, Mag, ToSci, NatOf, Digits, IntPart, FracPart, ExponentOf, TenTo;
    var m := NatOf(Digits(c) + fr);
    OneDigitBounds(c, fr);
    var n, p := ScaledText(m, |fr|);
    SixDigitPlaces(n, p);
    ShiftBoth(m, 0 - |fr|, n, -5, e);
    ToSciFixed(n, e - 5);
    PlainParts(c, fr);
    TextOfScientific(Times(m as real, Pow10(e - |fr|)), Sci(n, e));
    ExponentTextIs(e);
    ShuffleText(Digits(c), fr, ExponentOf(e));
  }

  lemma ShuffleText(a: string, fr: string, x: string)
    ensures Joined(a, fr, x) == a + (if fr == "" then "" else "." + fr) + x
  {
    if fr != "" { assert a + (("." + fr) + x) == a + ("." + fr) + x; } else { assert a + ("" + x) == a + "" + x; }
  }

  lemma ExponentTextIs(e: int)
    ensures ExponentText(e) == ExponentOf(e)
  {
    var k := if e < 0 then 0 - e else e;
    if k < 10 {
      assert "e" + (if e < 0 then "-" else "+") + ("0" + Digits(k)) == (if e < 0 then "e-" else "e+") + "0" + Digits(k);
    } else {
      assert (if e < 0 then "e-" else "e+") + "" + Digits(k) == (if e < 0 then "e-" else "e+") + Digits(k);
    }
  }

  lemma TextOfScientific(v: real, s: Sci)
    requires v > 0.0 && ToSci(v) == s && (s.exp < -4 || s.exp >= 6)
    ensures PrintNum(Finite(v)) == Joined(IntPart(s.digits, 5), FracPart(s.digits, 5), ExponentText(s.exp))
  {
    hide ToSci, IntPart, FracPart, Joined, ExponentText;
  }

  lemma {:induction false} OneDigitBounds(c: nat, fr: string)
    requires 1 <= c <= 9 && All(fr, IsDigit) && |fr| <= 5
    ensures TenTo(|fr|) <= NatOf(Digits(c) + fr) < TenTo(|fr| + 1)
    ensures 0 < NatOf(Digits(c) + fr) < 1_000_000
    decreases |fr|
  {
    if fr == "" {
      assert Digits(c) + fr == Digits(c);
      NatOfDigits(c);
      assert TenTo(0) == 1 && TenTo(1) == 10 * TenTo(0);
    } else {
      var init, d := fr[..|fr| - 1], fr[|fr| - 1];
      OneDigitBounds(c, init);
      assert Digits(c) + fr == (Digits(c) + init) + [d];
      NatOfSnoc(Digits(c) + init, d);
      DigitIs(d);
      TenToNext(|fr| - 1);
      TenToNext(|fr|);
      TenToUpToSix(|fr| + 1);
    }
  }

  lemma TenToUpToSix(k: nat)
    requires k <= 6
    ensures TenTo(k) <= 1_000_000
  {
    TenToSmall();
    assert k == 0 || k == 1 || k == 2 || k == 3 || k == 4 || k == 5 || k == 6;
  }

  lemma {:induction false} TenToMono(a: nat, b: nat)
    requires a <= b
    ensures TenTo(a) <= TenTo(b)
    decreases b - a
  {
    if a < b {
      TenToMono(a, b - 1);
      TenToNext(b - 1);
    }
  }

  /** A six-digit number with one digit before the point has five after it. */
  lemma SixDigitPlaces(n: nat, p: nat)
    requires 100_000 <= n < 1_000_000 && TenTo(p) <= n < TenTo(p + 1)
    ensures p == 5
  {
    TenToSmall();
    if p < 5 { TenToMono(p + 1, 5); }
    if p > 5 { TenToMono(6, p); }
  }

  lemma ShiftBoth(m: nat, a: int, n: nat, b: int, e: int)
    requires Times(m as real, Pow10(a)) == Times(n as real, Pow10(b))
    ensures Times(m as real, Pow10(e + a)) == Times(n as real, Pow10(e + b))
  {
    hide Times, Pow10;
    Pow10Sum(a, e);
    Pow10Sum(b, e);
    MulAssoc(m as real, Pow10(a), Pow10(e));
    MulAssoc(n as real, Pow10(b), Pow10(e));
  }

  // ---------------------------------------------------------------- reading

  /** What follows the digits of a numeral: nothing, or an exponent, and then anything that no longer belongs to it. */
  lemma ExponentRead(mark: char, sign: string, ds: string, junk: string)
    requires mark == 'e' || mark == 'E'
    requires sign == "" || sign == "+" || sign == "-"
    requires ds != "" && All(ds, IsDigit) && (junk == "" || !IsDigit(junk[0]))
    ensures ParseExponent([mark] + (sign + (ds + junk))) == if sign == "-" then 0 - NatOf(ds) else NatOf(ds)
  {
    hide NatOf, Take;
    var x := sign + (ds + junk);
    assert ([mark] + x)[1..] == x;
    SeamStops(ds, junk);
    if sign == "" {
      assert x == ds + junk && x[0] == ds[0];
    } else {
      assert x[1..] == ds + junk;
    }
  }

  lemma NoExponent(junk: string)
    requires junk == "" || (junk[0] != 'e' && junk[0] != 'E')
    ensures ParseExponent(junk) == 0
  {
  }

  /** A mantissa: digits, and maybe a point and more digits. */
  function Mantissa(ip: string, dot: bool, fr: string): string { ip + (if dot then "." + fr else "") }

  lemma MantissaRead(ip: string, dot: bool, fr: string, tail: string)
    requires All(ip, IsDigit) && All(fr, IsDigit) && (!dot ==> fr == "") && (ip != "" || fr != "")
    requires tail == "" || (!IsDigit(tail[0]) && (dot || tail[0] != '.'))
    ensures ParseDecimal(Mantissa(ip, dot, fr) + tail)
            == Some(Decimal(NatOf(ip + fr), ParseExponent(tail) - |fr|))
  {
    hide NatOf, ParseExponent, FractionOf, AfterFraction, Take, Rest, Mantissa;
    var r := (if dot then "." + fr else "") + tail;
    MantissaJoins(ip, dot, fr, tail);
    SeamStops(ip, r);
    FractionRead(dot, fr, tail);
  }

  lemma MantissaJoins(ip: string, dot: bool, fr: string, tail: string)
    ensures Mantissa(ip, dot, fr) + tail == ip + ((if dot then "." + fr else "") + tail)
  {
  }

  lemma SeamStops(ip: string, r: string)
    requires All(ip, IsDigit) && (r == "" || !IsDigit(r[0]))
    ensures Take(ip + r, IsDigit) == ip && Rest(ip + r, IsDigit) == r
  {
    TakeSeam(ip, r, IsDigit);
  }

  lemma FractionRead(dot: bool, fr: string, tail: string)
    requires All(fr, IsDigit) && (!dot ==> fr == "")
    requires tail == "" || (!IsDigit(tail[0]) && (dot || tail[0] != '.'))
    ensures var r := (if dot then "." + fr else "") + tail;
            && FractionOf(r) == fr && AfterFraction(r) == tail && (r == "" || !IsDigit(r[0]))
  {
    var r := (if dot then "." + fr else "") + tail;
    if dot {
      assert r[1..] == fr + tail;
      TakeSeam(fr, tail, IsDigit);
    } else {
      assert r == tail;
    }
  }

  /**
   A numeral with an optional sign is read as what its digits say, with or without a point, and with the exponent that
   follows; anything behind it is ignored.
   */
  lemma {:induction false} ParseNumeral(sign: string, ip: string, dot: bool, fr: string, tail: string)
    requires sign == "" || sign == "+" || sign == "-"
    requires All(ip, IsDigit) && All(fr, IsDigit) && (!dot ==> fr == "") && (ip != "" || fr != "")
    requires tail == "" || (!IsDigit(tail[0]) && (dot || tail[0] != '.'))
    ensures var v := Times(NatOf(ip + fr) as real, Pow10(ParseExponent(tail) - |fr|));
            ParseNum(sign + (Mantissa(ip, dot, fr) + tail)) == Some(Finite(if sign == "-" then -v else v))
  {
    hide ParseDecimal, NatOf, ParseExponent, Times, Pow10;
    var t := Mantissa(ip, dot, fr) + tail;
    var s := sign + t;
    MantissaRead(ip, dot, fr, tail);
    MantissaFirst(ip, dot, fr, tail);
    assert !StartsWithIgnoringCase(t, "inf") && !StartsWithIgnoringCase(t, "nan");
    if sign == "" {
      assert s == t;
    } else {
      assert s[0] == sign[0] && s[1..] == t;
    }
    SpanIs(s, IsSpace, 0);
    assert DropSpace(s) == s;
  }

  lemma MantissaFirst(ip: string, dot: bool, fr: string, tail: string)
    requires All(ip, IsDigit) && All(fr, IsDigit) && (!dot ==> fr == "") && (ip != "" || fr != "")
    ensures var t := Mantissa(ip, dot, fr) + tail; t != "" && (IsDigit(t[0]) || t[0] == '.')
  {
    if ip != "" { assert (Mantissa(ip, dot, fr) + tail)[0] == ip[0]; } else { assert (Mantissa(ip, dot, fr) + tail)[0] == '.'; }
  }
}
