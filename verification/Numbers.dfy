/**
 Sample values and their text forms. A value is a `double` idealised as a real number or one of the
 three non-finite values. Printing is the default `ostream << double` (six significant digits, `%g`),
 parsing is the prefix parse of `std::stod`.
 */
module Numbers {

  datatype Num = Finite(v: real) | PosInf | NegInf | NaN

  /** IEEE `a < b`. */
  predicate NumLess(a: Num, b: Num) {
    match (a, b)
    case (Finite(x), Finite(y)) => x < y
    case (NegInf, Finite(_)) => true
    case (NegInf, PosInf) => true
    case (Finite(_), PosInf) => true
    case _ => false
  }

  /** IEEE `a <= b`. */
  predicate NumLeq(a: Num, b: Num) {
    NumLess(a, b) || (a == b && a != NaN)
  }

  const ZERO := Finite(0.0)

  // ---------------------------------------------------------------- powers of ten

  function TenTo(k: nat): (n: nat)
    ensures n >= 1
  {
    if k == 0 then 1 else 10 * TenTo(k - 1)
  }

  function Pow10(e: int): (r: real)
    ensures r > 0.0
    decreases if e < 0 then -e else e
  {
    if e == 0 then 1.0 else if e > 0 then 10.0 * Pow10(e - 1) else Pow10(e + 1) / 10.0
  }

  /** A product of two reals under a name, so that proofs can pass it around whole. */
  function Times(a: real, b: real): real { a * b }

  lemma Pow10Succ(e: int)
    ensures Pow10(e + 1) == 10.0 * Pow10(e)
  {
  }

  lemma {:induction false} Pow10Add(a: int, b: nat)
    ensures Pow10(a + b) == Times(Pow10(a), Pow10(b))
  {
    if b > 0 {
      Pow10Add(a, b - 1);
      Pow10Succ(a + b - 1);
      PullTen(Pow10(a), Pow10(b - 1));
    }
  }

  lemma PullTen(p: real, q: real)
    ensures Times(p, 10.0 * q) == 10.0 * Times(p, q)
  {
  }

  lemma {:induction false} Pow10Inverse(a: int)
    ensures Times(Pow10(-a), Pow10(a)) == 1.0
    decreases if a < 0 then -a else a
  {
    if a > 0 {
      Pow10Inverse(a - 1);
      CancelTen(Pow10(-a + 1), Pow10(a - 1));
    } else if a < 0 {
      Pow10Inverse(a + 1);
      CancelTen(Pow10(a + 1), Pow10(-a - 1));
    }
  }

  lemma CancelTen(p: real, q: real)
    ensures Times(p / 10.0, 10.0 * q) == Times(p, q)
    ensures Times(10.0 * q, p / 10.0) == Times(q, p)
  {
  }

  /** Exponents add, whatever their signs. */
  lemma Pow10Sum(a: int, b: int)
    ensures Pow10(a + b) == Times(Pow10(a), Pow10(b))
  {
    if b >= 0 {
      Pow10Add(a, b);
    } else {
      Pow10Add(a + b, -b);
      Pow10Inverse(b);
      MulAssoc(Pow10(a + b), Pow10(-b), Pow10(b));
    }
  }

  lemma MulAssoc(p: real, q: real, r: real)
    ensures Times(Times(p, q), r) == Times(p, Times(q, r))
  {
  }

  lemma {:induction false} Pow10Nat(k: nat)
    ensures Pow10(k) == TenTo(k) as real
  {
    if k > 0 { Pow10Nat(k - 1); }
  }

  lemma {:induction false} Pow10Mono(a: int, b: int)
    requires a < b
    ensures 10.0 * Pow10(a) <= Pow10(b)
    decreases b - a
  {
    Pow10Succ(b - 1);
    if a < b - 1 { Pow10Mono(a, b - 1); }
  }


  // ---------------------------------------------------------------- six significant digits

  /** The decimal exponent of a positive number. */
  function Mag(v: real): (x: int)
    requires v > 0.0
    decreases v < 1.0, if v < 1.0 then (1.0 / v).Floor else v.Floor
  {
    if v >= 10.0 then 1 + Mag(v / 10.0)
    else if v < 1.0 then
      assert v * 10.0 < 1.0 ==> 1.0 / (v * 10.0) == (1.0 / v) / 10.0 && 1.0 / v > 10.0;
      Mag(v * 10.0) - 1
    else 0
  }

  lemma {:induction false} MagBounds(v: real)
    requires v > 0.0
    ensures Pow10(Mag(v)) <= v < Pow10(Mag(v) + 1)
    decreases v < 1.0, if v < 1.0 then (1.0 / v).Floor else v.Floor
  {
    if v >= 10.0 {
      MagBounds(v / 10.0);
      Pow10Succ(Mag(v / 10.0));
      Pow10Succ(Mag(v));
    } else if v < 1.0 {
      assert v * 10.0 < 1.0 ==> 1.0 / (v * 10.0) == (1.0 / v) / 10.0 && 1.0 / v > 10.0;
      MagBounds(v * 10.0);
      Pow10Succ(Mag(v));
      Pow10Succ(Mag(v * 10.0));
    } else {
      assert Pow10(1) == 10.0 * Pow10(0);
    }
  }

  lemma MagUnique(v: real, x: int)
    requires v > 0.0
    requires Pow10(x) <= v < Pow10(x + 1)
    ensures Mag(v) == x
  {
    MagBounds(v);
    if Mag(v) < x {
      if Mag(v) + 1 < x { Pow10Mono(Mag(v) + 1, x); }
    } else if x < Mag(v) {
      if x + 1 < Mag(v) { Pow10Mono(x + 1, Mag(v)); }
    }
  }

  /** Round to nearest, ties to even. */
  function RoundHalfEven(y: real): (n: int) {
    var f := y.Floor;
    var d := y - f as real;
    if d < 0.5 || (d == 0.5 && f % 2 == 0) then f else f + 1
  }

  lemma RoundBounds(y: real, lo: int, hi: int)
    requires lo as real <= y <= hi as real
    ensures lo <= RoundHalfEven(y) <= hi
  {
  }

  /** The decimal number `digits * 10^(exp - 5)`, with exactly six digits. */
  datatype Sci = Sci(digits: nat, exp: int)

  ghost predicate SixDigits(s: Sci) { 100_000 <= s.digits < 1_000_000 }

  function SciValue(s: Sci): real { Times(s.digits as real, Pow10(s.exp - 5)) }

  /** The six-digit decimal nearest to a positive number, carrying into the exponent on overflow. */
  function ToSci(v: real): (s: Sci)
    requires v > 0.0
    ensures SixDigits(s)
  {
    var x := Mag(v);
    ScaledBounds(v);
    var y := Times(v, Pow10(5 - x));
    RoundBounds(y, 100_000, 1_000_000);
    var n := RoundHalfEven(y);
    if n == 1_000_000 then Sci(100_000, x + 1) else Sci(n, x)
  }

  lemma ScaledBounds(v: real)
    requires v > 0.0
    ensures 100_000.0 <= Times(v, Pow10(5 - Mag(v))) < 1_000_000.0
  {
    MagBounds(v);
    SixPowers();
    ScaleLower(v, Mag(v), 5 - Mag(v));
    ScaleUpper(v, Mag(v) + 1, 5 - Mag(v));
  }

  lemma ScaleLower(v: real, x: int, k: int)
    requires Pow10(x) <= v
    ensures Pow10(x + k) <= Times(v, Pow10(k))
  {
    Pow10Sum(x, k);
    MulMono(Pow10(x), v, Pow10(k));
  }

  lemma ScaleUpper(v: real, x: int, k: int)
    requires v < Pow10(x)
    ensures Times(v, Pow10(k)) < Pow10(x + k)
  {
    Pow10Sum(x, k);
    MulMonoStrict(v, Pow10(x), Pow10(k));
  }

  lemma SixPowers()
    ensures Pow10(5) == 100_000.0 && Pow10(6) == 1_000_000.0
  {
    Pow10Nat(5);
    Pow10Nat(6);
    TenToSmall();
  }

  lemma TenToSmall()
    ensures TenTo(1) == 10 && TenTo(2) == 100 && TenTo(3) == 1000 && TenTo(4) == 10_000
    ensures TenTo(5) == 100_000 && TenTo(6) == 1_000_000 && TenTo(9) == 1_000_000_000
  {
    assert TenTo(0) == 1;
    assert TenTo(1) == 10 * TenTo(0);
    assert TenTo(2) == 10 * TenTo(1);
    assert TenTo(3) == 10 * TenTo(2);
    assert TenTo(4) == 10 * TenTo(3);
    assert TenTo(5) == 10 * TenTo(4);
    assert TenTo(6) == 10 * TenTo(5);
    assert TenTo(7) == 10 * TenTo(6);
    assert TenTo(8) == 10 * TenTo(7);
    assert TenTo(9) == 10 * TenTo(8);
  }

  lemma MulMono(a: real, b: real, p: real)
    requires a <= b && p > 0.0
    ensures Times(a, p) <= Times(b, p)
  {
  }

  lemma MulMonoStrict(a: real, b: real, p: real)
    requires a < b && p > 0.0
    ensures Times(a, p) < Times(b, p)
  {
  }

  /** What a value becomes when it is printed and read back. */
  function Round6(x: Num): (r: Num) {
    match x
    case Finite(v) =>
      if v == 0.0 then x
      else if v > 0.0 then Finite(SciValue(ToSci(v)))
      else Finite(-SciValue(ToSci(-v)))
    case _ => x
  }

  /** Six significant digits are enough to write `x` exactly. */
  ghost predicate Short(x: Num) {
    x.Finite? ==> exists m: int, e: int :: ShortForm(x.v, m, e)
  }

  ghost predicate ShortForm(v: real, m: int, e: int) {
    -1_000_000 < m < 1_000_000 && v == Times(m as real, Pow10(e))
  }

  /** Any positive number with at most six digits has a six-digit form. */
  lemma {:induction false} ScaleUp(m: nat, e: int) returns (n: nat, f: int)
    requires 0 < m < 1_000_000
    ensures 100_000 <= n < 1_000_000
    ensures Times(m as real, Pow10(e)) == Times(n as real, Pow10(f))
    decreases 1_000_000 - m
  {
    if m >= 100_000 {
      n, f := m, e;
    } else {
      Tenfold(m, e);
      n, f := ScaleUp(10 * m, e - 1);
    }
  }

  lemma Tenfold(m: nat, e: int)
    ensures Times(m as real, Pow10(e)) == Times((10 * m) as real, Pow10(e - 1))
  {
    Pow10Succ(e - 1);
    MulAssoc(m as real, 10.0, Pow10(e - 1));
    assert (10 * m) as real == Times(m as real, 10.0);
  }

  /** The magnitude of a six-digit decimal is read off its exponent. */
  lemma MagSixDigits(n: nat, f: int)
    requires 100_000 <= n < 1_000_000
    ensures Times(n as real, Pow10(f)) > 0.0
    ensures Mag(Times(n as real, Pow10(f))) == f + 5
  {
    SixPowers();
    ScaleLower(n as real, 5, f);
    ScaleUpper(n as real, 6, f);
    MagUnique(Times(n as real, Pow10(f)), f + 5);
  }

  /** Six-digit decimals are fixed points of the conversion. */
  lemma ToSciFixed(n: nat, f: int)
    requires 100_000 <= n < 1_000_000
    ensures Times(n as real, Pow10(f)) > 0.0
    ensures ToSci(Times(n as real, Pow10(f))) == Sci(n, f + 5)
  {
    MagSixDigits(n, f);
    Pow10Inverse(-f);
    MulAssoc(n as real, Pow10(f), Pow10(-f));
    RoundWhole(n);
  }

  lemma RoundWhole(n: int)
    ensures RoundHalfEven(n as real) == n
  {
  }

  lemma ShortIsFixed(m: nat, e: int)
    requires 0 < m < 1_000_000
    ensures Times(m as real, Pow10(e)) > 0.0
    ensures SciValue(ToSci(Times(m as real, Pow10(e)))) == Times(m as real, Pow10(e))
  {
    var n, f := ScaleUp(m, e);
    ToSciFixed(n, f);
  }

  lemma ShortNegate(v: real, m: int, e: int)
    requires ShortForm(v, m, e)
    ensures ShortForm(-v, -m, e)
  {
  }

  lemma ShortSign(v: real, m: int, e: int)
    requires ShortForm(v, m, e) && v > 0.0
    ensures m > 0
  {
    if m <= 0 { MulMono(m as real, 0.0, Pow10(e)); }
  }

  lemma SciIsShort(s: Sci)
    requires SixDigits(s)
    ensures ShortForm(SciValue(s), s.digits, s.exp - 5)
    ensures SciValue(s) > 0.0
  {
  }

  lemma Round6Positive(v: real)
    requires v > 0.0
    ensures SciValue(ToSci(v)) == v <==> Short(Finite(v))
  {
    SciIsShort(ToSci(v));
    if Short(Finite(v)) {
      var m: int, e: int :| ShortForm(v, m, e);
      ShortSign(v, m, e);
      ShortIsFixed(m, e);
    }
  }

  lemma ShortMirrored(v: real)
    requires Short(Finite(v))
    ensures Short(Finite(-v))
  {
    var m: int, e: int :| ShortForm(v, m, e);
    ShortNegate(v, m, e);
  }

  lemma ShortMirror(v: real)
    ensures Short(Finite(v)) <==> Short(Finite(-v))
  {
    if Short(Finite(v)) { ShortMirrored(v); }
    if Short(Finite(-v)) { ShortMirrored(-v); }
  }

  /** Printing and reading back is lossless exactly for the values with at most six significant digits. */
  lemma Round6Exact(x: Num)
    ensures Round6(x) == x <==> Short(x)
  {
    if x.Finite? {
      if x.v > 0.0 {
        Round6Positive(x.v);
      } else if x.v < 0.0 {
        Round6Positive(-x.v);
        ShortMirror(x.v);
      } else {
        assert ShortForm(x.v, 0, 0);
      }
    }
  }

  // ---------------------------------------------------------------- nearest

  function Distance(a: real, b: real): real { if a < b then b - a else a - b }

  lemma NearestWhole(y: real, k: int)
    ensures Distance(RoundHalfEven(y) as real, y) <= Distance(k as real, y)
    ensures Distance(RoundHalfEven(y) as real, y) <= 0.5
  {
    var f := y.Floor;
    if k <= f { assert k as real <= f as real; } else { assert k as real >= (f + 1) as real; }
  }

  /** In units of the last digit kept, no number that can be written with six digits is nearer than the rounded one. */
  lemma NearestScaled(y: real, n: nat, g: int)
    requires 100_000.0 <= y < 1_000_000.0 && 0 < n < 1_000_000 && (g == 0 || n >= 100_000)
    ensures Distance(RoundHalfEven(y) as real, y) <= Distance(Times(n as real, Pow10(g)), y)
  {
    if g == 0 {
      NearestWhole(y, n);
    } else if g > 0 {
      NearestWhole(y, 1_000_000);
      Pow10Above(g);
      MulMono(10.0, Pow10(g), n as real);
      assert Times(n as real, Pow10(g)) >= 1_000_000.0;
    } else {
      NearestWhole(y, 100_000);
      Pow10Below(g);
      MulMono(Pow10(g), 0.1, n as real);
      assert Times(n as real, Pow10(g)) <= 100_000.0;
    }
  }

  lemma Pow10Above(g: int)
    requires g > 0
    ensures Pow10(g) >= 10.0
  {
    Pow10Mono(0, g);
  }

  lemma Pow10Below(g: int)
    requires g < 0
    ensures Pow10(g) <= 0.1
  {
    Pow10Mono(g, 0);
  }

  lemma DistanceScales(a: real, b: real, p: real)
    requires p > 0.0
    ensures Distance(Times(a, p), Times(b, p)) == Times(Distance(a, b), p)
  {
    if a < b { MulMonoStrict(a, b, p); } else { MulMono(b, a, p); }
  }

  /** The rounded value and the value itself, in units of the last digit kept. */
  lemma RoundedInUnits(v: real)
    requires v > 0.0
    ensures var y := Times(v, Pow10(5 - Mag(v)));
            && 100_000.0 <= y < 1_000_000.0 && v == Times(y, Pow10(Mag(v) - 5))
            && SciValue(ToSci(v)) == Times(RoundHalfEven(y) as real, Pow10(Mag(v) - 5))
  {
    hide Times, Mag, RoundHalfEven;
    var x := Mag(v);
    ScaledBounds(v);
    UndoScale(v, x - 5);
    Tenfold(100_000, x - 4);
  }

  /** Scaling down and up again. */
  lemma UndoScale(v: real, a: int)
    ensures Times(Times(v, Pow10(-a)), Pow10(a)) == v
  {
    hide Times;
    Pow10Inverse(a);
    MulAssoc(v, Pow10(-a), Pow10(a));
    TimesOne(v);
  }

  lemma TimesOne(v: real)
    ensures Times(v, 1.0) == v
  {
  }

  lemma NearestPositive(v: real, m: int, e: int)
    requires v > 0.0 && -1_000_000 < m < 1_000_000
    ensures Distance(SciValue(ToSci(v)), v) <= Distance(Times(m as real, Pow10(e)), v)
  {
    RoundedInUnits(v);
    var x := Mag(v);
    var y, p := Times(v, Pow10(5 - x)), Pow10(x - 5);
    var r := RoundHalfEven(y) as real;
    DistanceScales(r, y, p);
    if m <= 0 {
      MulMono(m as real, 0.0, Pow10(e));
      NearestWhole(y, 100_000);
      assert Distance(r, y) <= y;
      MulMono(Distance(r, y), y, p);
    } else {
      var n, f := ScaleUp(m, e);
      NearestScaled(y, n, f + 5 - x);
      Pow10Sum(f + 5 - x, x - 5);
      MulAssoc(n as real, Pow10(f + 5 - x), p);
      DistanceScales(Times(n as real, Pow10(f + 5 - x)), y, p);
      MulMono(Distance(r, y), Distance(Times(n as real, Pow10(f + 5 - x)), y), p);
    }
  }

  /** Printing rounds to the nearest: no number of at most six significant digits is closer to the value. */
  lemma Round6Nearest(v: real, u: real)
    requires Short(Finite(u))
    ensures Round6(Finite(v)).Finite? && Distance(Round6(Finite(v)).v, v) <= Distance(u, v)
  {
    var m: int, e: int :| ShortForm(u, m, e);
    if v > 0.0 {
      NearestPositive(v, m, e);
    } else if v < 0.0 {
      NearestPositive(-v, -m, e);
      ShortNegate(u, m, e);
    }
  }

  /** Halfway between two six-digit decimals, the even one is printed. */
  lemma TieGoesToEven(n: nat, f: int)
    requires 100_000 <= n < 999_999
    ensures Round6(Finite(Times(n as real + 0.5, Pow10(f))))
            == Finite(Times((if n % 2 == 0 then n else n + 1) as real, Pow10(f)))
  {
    hide Times, Mag, RoundHalfEven, ToSci, SciValue, Pow10;
    var y := n as real + 0.5;
    var v := Times(y, Pow10(f));
    SixPowers();
    ScaleLower(y, 5, f);
    ScaleUpper(y, 6, f);
    TimesPositive(y, Pow10(f));
    MagUnique(v, f + 5);
    RoundedInUnits(v);
    UndoScale(y, -f);
    HalfRounds(n);
  }

  lemma TimesPositive(a: real, b: real)
    requires a > 0.0 && b > 0.0
    ensures Times(a, b) > 0.0
  {
  }

  lemma HalfRounds(n: nat)
    ensures RoundHalfEven(n as real + 0.5) == if n % 2 == 0 then n else n + 1
  {
    assert (n as real + 0.5).Floor == n;
  }

  /** A whole number is a decimal of at most six digits followed by zeros. */
  predicate FitsSix(n: nat) { n < 1_000_000 || (n % 10 == 0 && FitsSix(n / 10)) }

  lemma {:induction false} FitsSixIsShort(n: nat)
    requires FitsSix(n)
    ensures Short(Finite(n as real))
  {
    var v := n as real;
    if n < 1_000_000 {
      assert ShortForm(v, n, 0);
    } else {
      FitsSixIsShort(n / 10);
      var u := (n / 10) as real;
      assert Short(Finite(u));
      var m: int, e: int :| ShortForm(u, m, e);
      Pow10Succ(e);
      PullTenOut(m as real, Pow10(e));
      assert v == 10.0 * u;
      assert ShortForm(v, m, e + 1);
    }
  }

  lemma PullTenOut(p: real, q: real)
    ensures Times(p, 10.0 * q) == 10.0 * Times(p, q)
  {
  }

  lemma {:induction false} ShortFormFitsSix(n: nat, m: int, e: int)
    requires ShortForm(n as real, m, e)
    ensures FitsSix(n)
    decreases if e < 0 then 0 else e
  {
    if n >= 1_000_000 {
      if e <= 0 {
        ShrinkBound(n, m, e);
      } else {
        Pow10Nat(e - 1);
        Pow10Succ(e - 1);
        PullTenOut(m as real, Pow10(e - 1));
        WholeTenth(n, m, TenTo(e - 1));
        ShortFormFitsSix(n / 10, m, e - 1);
      }
    }
  }

  lemma ShrinkBound(n: nat, m: int, e: int)
    requires e <= 0 && ShortForm(n as real, m, e)
    ensures n < 1_000_000
  {
    if e < 0 { Pow10Mono(e, 0); }
    assert 0.0 < Pow10(e) <= 1.0;
    if m > 0 { MulMono(Pow10(e), 1.0, m as real); } else { MulMono(m as real, 0.0, Pow10(e)); }
  }

  lemma WholeTenth(n: nat, m: int, p: nat)
    requires n as real == 10.0 * Times(m as real, p as real)
    ensures n % 10 == 0 && (n / 10) as real == Times(m as real, p as real)
  {
    assert Times(m as real, p as real) == (m * p) as real;
    assert n as real == (10 * (m * p)) as real;
    assert n == 10 * (m * p);
  }

  /** A count prints exactly if and only if its digits after the sixth are zeros. */
  lemma CountShortIff(n: nat)
    ensures Short(Finite(n as real)) <==> FitsSix(n)
  {
    var v := n as real;
    if FitsSix(n) { FitsSixIsShort(n); }
    if Short(Finite(v)) {
      var m: int, e: int :| ShortForm(v, m, e);
      ShortFormFitsSix(n, m, e);
    }
  }

  /** A second printing loses nothing more. */
  lemma Round6Idempotent(x: Num)
    ensures Round6(Round6(x)) == Round6(x)
  {
    if x.Finite? && x.v != 0.0 {
      SciIsShort(ToSci(if x.v > 0.0 then x.v else -x.v));
      ShortMirror(Round6(x).v);
    }
    Round6Exact(Round6(x));
  }

  lemma Round6Sign(x: Num)
    ensures NumLess(Round6(x), ZERO) == NumLess(x, ZERO)
  {
    if x.Finite? && x.v != 0.0 {
      SciIsShort(ToSci(if x.v > 0.0 then x.v else -x.v));
    }
  }
}
