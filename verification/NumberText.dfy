/**
 The text of numbers: `%g` printing with six significant digits, integer printing, and the
 decimal part of `std::stod` (longest numeric prefix, trailing characters ignored).
 */
module NumberText {
  import opened Text
  import opened Numbers

  // ---------------------------------------------------------------- digits

  function DigitChar(d: nat): (c: char)
    requires d < 10
    ensures IsDigit(c) && DigitValue(c) == d
  {
    '0' + d as char
  }

  function DigitValue(c: char): nat {
    if IsDigit(c) then (c - '0') as int else 0
  }

  /** Decimal digits of an integer, no leading zero except for 0 itself. */
  function Digits(n: nat): (s: string)
    ensures s != [] && All(s, IsDigit)
  {
    if n < 10 then [DigitChar(n)] else Digits(n / 10) + [DigitChar(n % 10)]
  }

  /** The last `d` decimal digits of an integer. */
  function Padded(n: nat, d: nat): (s: string)
    ensures |s| == d && All(s, IsDigit)
  {
    if d == 0 then "" else Padded(n / 10, d - 1) + [DigitChar(n % 10)]
  }

  function NatOf(s: string): nat {
    if s == [] then 0 else 10 * NatOf(s[..|s| - 1]) + DigitValue(s[|s| - 1])
  }

  lemma NatOfSnoc(s: string, c: char)
    ensures NatOf(s + [c]) == 10 * NatOf(s) + DigitValue(c)
  {
    assert (s + [c])[..|s|] == s;
  }

  lemma {:induction false} NatOfDigits(n: nat)
    ensures NatOf(Digits(n)) == n
  {
    if n < 10 {
      NatOfSnoc("", DigitChar(n));
      assert "" + [DigitChar(n)] == Digits(n);
    } else {
      NatOfDigits(n / 10);
      NatOfSnoc(Digits(n / 10), DigitChar(n % 10));
    }
  }

  /** The number without its last `d` decimal digits. */
  function Whole(n: nat, d: nat): nat {
    if d == 0 then n else Whole(n / 10, d - 1)
  }

  /** Cutting a number in two digit strings and reading them side by side gives it back. */
  lemma {:induction false} NatOfCut(n: nat, d: nat)
    ensures NatOf(Digits(Whole(n, d)) + Padded(n, d)) == n
  {
    if d == 0 {
      NatOfDigits(n);
      assert Digits(n) + Padded(n, 0) == Digits(n);
    } else {
      NatOfCut(n / 10, d - 1);
      NatOfCutStep(Digits(Whole(n / 10, d - 1)), Padded(n / 10, d - 1), n);
    }
  }

  lemma NatOfCutStep(a: string, b: string, n: nat)
    requires NatOf(a + b) == n / 10
    ensures NatOf(a + (b + [DigitChar(n % 10)])) == n
  {
    NatOfSnoc(a + b, DigitChar(n % 10));
    assert a + (b + [DigitChar(n % 10)]) == (a + b) + [DigitChar(n % 10)];
  }

  /** `%g` drops trailing zeros of the fraction. */
  function StripZeros(s: string): (t: string)
    ensures |t| <= |s| && t == s[..|t|]
  {
    if s != [] && s[|s| - 1] == '0' then StripZeros(s[..|s| - 1]) else s
  }

  /** `n` is `m` with `k` zeros appended. */
  ghost predicate ZerosAppended(m: nat, k: nat, n: nat)
    decreases k
  {
    if k == 0 then m == n else ZerosAppended(10 * m, k - 1, n)
  }

  lemma {:induction false} AppendOneMore(m: nat, k: nat, n: nat)
    requires ZerosAppended(m, k, n)
    ensures ZerosAppended(m, k + 1, 10 * n)
    decreases k
  {
    if k > 0 { AppendOneMore(10 * m, k - 1, n); }
  }

  lemma {:induction false} NatOfStripped(a: string, s: string)
    ensures ZerosAppended(NatOf(a + StripZeros(s)), |s| - |StripZeros(s)|, NatOf(a + s))
  {
    if s != [] && s[|s| - 1] == '0' {
      var s' := s[..|s| - 1];
      NatOfStripped(a, s');
      NatOfSnoc(a + s', '0');
      assert a + s == (a + s') + ['0'];
      AppendOneMore(NatOf(a + StripZeros(s)), |s'| - |StripZeros(s')|, NatOf(a + s'));
    }
  }

  // ---------------------------------------------------------------- printing

  function Fraction(digits: string): string {
    if digits == "" then "" else "." + digits
  }

  /** `n / 10^d` in fixed notation: the digits before the point, and those after it without trailing zeros. */
  function IntPart(n: nat, d: nat): (s: string)
    ensures s != [] && All(s, IsDigit)
  {
    Digits(Whole(n, d))
  }

  function FracPart(n: nat, d: nat): (s: string)
    ensures |s| <= d && All(s, IsDigit)
  {
    StripZeros(Padded(n, d))
  }

  function ExponentText(e: int): string {
    var k := if e < 0 then -e else e;
    "e" + (if e < 0 then "-" else "+") + (if k < 10 then "0" + Digits(k) else Digits(k))
  }

  /** Digits after the decimal point before trailing zeros are stripped. */
  function Places(s: Sci): nat { if -4 <= s.exp < 6 then 5 - s.exp else 5 }

  function SciTail(s: Sci): string { if -4 <= s.exp < 6 then "" else ExponentText(s.exp) }

  function Joined(ip: string, frac: string, tail: string): string { ip + (Fraction(frac) + tail) }

  function SciText(s: Sci): string {
    Joined(IntPart(s.digits, Places(s)), FracPart(s.digits, Places(s)), SciTail(s))
  }

  /** `out << double` with the default precision of six. */
  function PrintNum(x: Num): string {
    match x
    case PosInf => "inf"
    case NegInf => "-inf"
    case NaN => "nan"
    case Finite(v) =>
      if v == 0.0 then "0"
      else if v > 0.0 then SciText(ToSci(v))
      else "-" + SciText(ToSci(-v))
  }

  // ---------------------------------------------------------------- parsing

  /** The value of an exponent part without its `e`. */
  function SignedExponent(x: string): int {
    if x != [] && x[0] == '-' then 0 - NatOf(Take(x[1..], IsDigit))
    else if x != [] && x[0] == '+' then NatOf(Take(x[1..], IsDigit))
    else NatOf(Take(x, IsDigit))
  }

  function ParseExponent(r: string): int {
    if r != [] && (r[0] == 'e' || r[0] == 'E') then SignedExponent(r[1..]) else 0
  }

  predicate Dotted(r: string) { r != [] && r[0] == '.' }

  /** The digits after a leading decimal point. */
  function FractionOf(r: string): string {
    if Dotted(r) then Take(r[1..], IsDigit) else ""
  }

  function AfterFraction(r: string): string {
    if Dotted(r) then Rest(r[1..], IsDigit) else r
  }

  /** An unsigned numeric literal as written. */
  datatype Literal = Infinite | NotANumber | Decimal(digits: nat, exp: int)

  function LiteralValue(l: Literal, negative: bool): Num {
    match l
    case Infinite => if negative then NegInf else PosInf
    case NotANumber => NaN
    case Decimal(n, e) => if negative then Finite(-Times(n as real, Pow10(e))) else Finite(Times(n as real, Pow10(e)))
  }

  function ParseDecimal(t: string): Option<Literal> {
    var ip := Take(t, IsDigit);
    var frac := FractionOf(Rest(t, IsDigit));
    if ip == "" && frac == "" then None
    else Some(Decimal(NatOf(ip + frac), ParseExponent(AfterFraction(Rest(t, IsDigit))) - |frac|))
  }

  function ParseUnsigned(t: string): Option<Literal> {
    if StartsWithIgnoringCase(t, "inf") then Some(Infinite)
    else if StartsWithIgnoringCase(t, "nan") then Some(NotANumber)
    else ParseDecimal(t)
  }

  function Signed(t: string): bool { t != [] && (t[0] == '-' || t[0] == '+') }

  /** `std::stod`; `None` stands for the exception it throws when there is no number. */
  function ParseNum(s: string): Option<Num> {
    var t := DropSpace(s);
    var l := ParseUnsigned(if Signed(t) then t[1..] else t);
    if l.None? then None else Some(LiteralValue(l.value, Signed(t) && t[0] == '-'))
  }

  // ---------------------------------------------------------------- the inverse

  /** Moving zeros from the integer into the exponent does not change the value. */
  lemma {:induction false} ShiftZeros(m: nat, k: nat, n: nat, e: int)
    requires ZerosAppended(m, k, n)
    ensures Times(m as real, Pow10(e)) == Times(n as real, Pow10(e - k))
    decreases k
  {
    if k > 0 {
      Tenfold(m, e);
      ShiftZeros(10 * m, k - 1, n, e - 1);
    }
  }

  lemma FractionParts(frac: string, tail: string)
    requires All(frac, IsDigit)
    requires tail == [] || tail[0] == 'e'
    ensures FractionOf(Fraction(frac) + tail) == frac
    ensures AfterFraction(Fraction(frac) + tail) == tail
  {
    if frac == "" {
      assert Fraction(frac) + tail == tail;
    } else {
      assert (Fraction(frac) + tail)[1..] == frac + tail;
      TakeSeam(frac, tail, IsDigit);
    }
  }

  /** The literal that `ip [. frac] tail` is read as. */
  function JoinedLiteral(ip: string, frac: string, tail: string): Literal {
    Decimal(NatOf(ip + frac), ParseExponent(tail) - |frac|)
  }

  lemma DecimalFromParts(t: string, ip: string, r: string, frac: string, tail: string)
    requires Take(t, IsDigit) == ip && Rest(t, IsDigit) == r
    requires FractionOf(r) == frac && AfterFraction(r) == tail
    requires ip != ""
    ensures ParseDecimal(t) == Some(Decimal(NatOf(ip + frac), ParseExponent(tail) - |frac|))
  {
  }

  /** Splitting `ip [. frac] tail` back into its parts. */
  lemma ParseDecimalParts(t: string, ip: string, frac: string, tail: string)
    requires t == Joined(ip, frac, tail)
    requires ip != [] && All(ip, IsDigit) && All(frac, IsDigit)
    requires tail == [] || tail[0] == 'e'
    ensures ParseDecimal(t) == Some(JoinedLiteral(ip, frac, tail))
  {
    hide ParseDecimal, NatOf, ParseExponent, FractionOf, AfterFraction;
    var r := Fraction(frac) + tail;
    TakeSeam(ip, r, IsDigit);
    FractionParts(frac, tail);
    DecimalFromParts(t, ip, r, frac, tail);
  }

  lemma DigitFirst(s: string, t: string, l: Literal, negative: bool)
    requires t != [] && IsDigit(t[0]) && ParseDecimal(t) == Some(l)
    requires s == if negative then "-" + t else t
    ensures ParseNum(s) == Some(LiteralValue(l, negative))
  {
    assert !StartsWithIgnoringCase(t, "inf") && !StartsWithIgnoringCase(t, "nan");
    assert Span(s, IsSpace) == 0;
    assert DropSpace(s) == s;
    assert negative ==> s[1..] == t;
  }

  lemma StrippedDigits(n: nat, d: nat)
    ensures ZerosAppended(NatOf(IntPart(n, d) + FracPart(n, d)), d - |FracPart(n, d)|, n)
  {
    NatOfCut(n, d);
    NatOfStripped(IntPart(n, d), Padded(n, d));
  }

  lemma NatOfTwoDigits(k: nat)
    ensures NatOf(if k < 10 then "0" + Digits(k) else Digits(k)) == k
  {
    NatOfDigits(k);
    if k < 10 {
      NatOfSnoc("0", DigitChar(k));
      NatOfSnoc("", '0');
      assert "" + ['0'] == "0";
    }
  }

  lemma ParseSignedExponent(sign: char, ds: string)
    requires All(ds, IsDigit) && (sign == '-' || sign == '+')
    ensures SignedExponent([sign] + ds) == if sign == '-' then 0 - NatOf(ds) else NatOf(ds)
  {
    assert ([sign] + ds)[1..] == ds;
    TakeAll(ds, IsDigit);
  }

  lemma ParseExponentText(e: int)
    ensures ParseExponent(ExponentText(e)) == e
  {
    var k := if e < 0 then 0 - e else e;
    var ds := if k < 10 then "0" + Digits(k) else Digits(k);
    var sign := if e < 0 then '-' else '+';
    assert All(ds, IsDigit);
    assert ExponentText(e)[1..] == [sign] + ds;
    ParseSignedExponent(sign, ds);
    NatOfTwoDigits(k);
  }

  lemma SciTextFirst(s: Sci)
    ensures SciText(s) != [] && IsDigit(SciText(s)[0])
  {
  }

  /** The literal its text is read as. */
  function SciLiteral(s: Sci): Literal {
    JoinedLiteral(IntPart(s.digits, Places(s)), FracPart(s.digits, Places(s)), SciTail(s))
  }

  lemma SciTailFirst(s: Sci)
    ensures SciTail(s) == [] || SciTail(s)[0] == 'e'
  {
  }

  lemma ParseSciTail(s: Sci)
    ensures ParseExponent(SciTail(s)) == s.exp - 5 + Places(s)
  {
    ParseExponentText(s.exp);
  }

  lemma ParseSciText(s: Sci)
    ensures ParseDecimal(SciText(s)) == Some(SciLiteral(s))
  {
    SciTailFirst(s);
    ParseDecimalParts(SciText(s), IntPart(s.digits, Places(s)), FracPart(s.digits, Places(s)), SciTail(s));
  }

  lemma SciLiteralValue(s: Sci, negative: bool)
    ensures LiteralValue(SciLiteral(s), negative) == Finite(if negative then -SciValue(s) else SciValue(s))
  {
    ParseSciTail(s);
    StrippedDigits(s.digits, Places(s));
    ShiftZeros(SciLiteral(s).digits, Places(s) - |FracPart(s.digits, Places(s))|, s.digits, SciLiteral(s).exp);
  }

  lemma WordLiteral(t: string)
    requires t == "inf" || t == "nan"
    ensures ParseUnsigned(t) == Some(if t == "inf" then Infinite else NotANumber)
  {
    assert t[1..][1..][1..] == [];
  }

  lemma WordValue(s: string, t: string, negative: bool)
    requires t == "inf" || t == "nan"
    requires s == if negative then "-" + t else t
    ensures ParseNum(s) == Some(LiteralValue(if t == "inf" then Infinite else NotANumber, negative))
  {
    WordLiteral(t);
    assert s[0] == (if negative then '-' else t[0]);
    assert Span(s, IsSpace) == 0;
    assert DropSpace(s) == s;
    assert negative ==> s[1..] == t;
  }

  lemma ParseWords()
    ensures ParseNum("inf") == Some(PosInf)
    ensures ParseNum("-inf") == Some(NegInf)
    ensures ParseNum("nan") == Some(NaN)
  {
    WordValue("inf", "inf", false);
    WordValue("-inf", "inf", true);
    WordValue("nan", "nan", false);
  }

  lemma ParseSigned(t: string, s: Sci, negative: bool)
    requires t == if negative then "-" + SciText(s) else SciText(s)
    ensures ParseNum(t) == Some(Finite(if negative then -SciValue(s) else SciValue(s)))
  {
    ParseSciText(s);
    SciTextFirst(s);
    DigitFirst(t, SciText(s), SciLiteral(s), negative);
    SciLiteralValue(s, negative);
  }

  lemma ParsePrintZero()
    ensures ParseNum("0") == Some(Finite(0.0))
  {
    ParsePrintNat(0);
    assert Digits(0) == "0";
  }

  lemma ParsePrintNonzero(v: real)
    requires v != 0.0
    ensures ParseNum(PrintNum(Finite(v))) == Some(Round6(Finite(v)))
  {
    var s := ToSci(if v < 0.0 then -v else v);
    assert PrintNum(Finite(v)) == if v < 0.0 then "-" + SciText(s) else SciText(s);
    assert Round6(Finite(v)) == Finite(if v < 0.0 then -SciValue(s) else SciValue(s));
    ParseSigned(PrintNum(Finite(v)), s, v < 0.0);
  }

  /** Reading back a printed value gives its six-digit rounding, for every value. */
  lemma ParsePrintNum(x: Num)
    ensures ParseNum(PrintNum(x)) == Some(Round6(x))
  {
    match x
    case Finite(v) =>
      if v == 0.0 { ParsePrintZero(); } else { ParsePrintNonzero(v); }
    case _ => ParseWords();
  }

  lemma ParseDigits(n: nat)
    ensures ParseDecimal(Digits(n)) == Some(Decimal(n, 0))
  {
    var t := Digits(n);
    assert Joined(t, "", "") == t;
    assert t + "" == t;
    NatOfDigits(n);
    ParseDecimalParts(t, t, "", "");
  }

  /** Integers are printed in full and read back exactly. */
  lemma ParsePrintNat(n: nat)
    ensures ParseNum(Digits(n)) == Some(Finite(n as real))
  {
    ParseDigits(n);
    DigitFirst(Digits(n), Digits(n), Decimal(n, 0), false);
  }

  // ---------------------------------------------------------------- alphabet

  /** The characters a printed number can contain. */
  predicate IsNumChar(c: char) {
    IsDigit(c) || c in "+-.einfa"
  }

  lemma SciTextChars(s: Sci)
    ensures SciText(s) != [] && All(SciText(s), IsNumChar)
  {
    var ip, frac, tail := IntPart(s.digits, Places(s)), FracPart(s.digits, Places(s)), SciTail(s);
    assert All(ip, IsNumChar) && All(Fraction(frac), IsNumChar) && All(tail, IsNumChar);
  }

  lemma PrintNonzeroChars(v: real)
    requires v != 0.0
    ensures PrintNum(Finite(v)) != [] && All(PrintNum(Finite(v)), IsNumChar)
  {
    var s := ToSci(if v < 0.0 then -v else v);
    SciTextChars(s);
    assert PrintNum(Finite(v)) == if v < 0.0 then "-" + SciText(s) else SciText(s);
  }

  lemma PrintNumChars(x: Num)
    ensures PrintNum(x) != [] && All(PrintNum(x), IsNumChar)
  {
    if x.Finite? && x.v != 0.0 { PrintNonzeroChars(x.v); }
  }
}
