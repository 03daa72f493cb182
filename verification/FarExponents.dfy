/** When two exponents for one coefficient round alike in every mode. */
module FarExponents {
  import opened Powers
  import opened Formats
  import opened Rounding
  import opened StandIns
  import opened Meaning
  import opened Existence
  import opened Narrow
  import opened Extremes

  /** Twice the number is below the least quantum, so that no mode but the directed ones and re-rounding sees it. */
  predicate Negligible(f: Format, c: nat, e: int) {
    e < f.Qtiny() && 2 * c < Pow10(f.Qtiny() - e)
  }

  /** The adjusted exponent is above emax. */
  predicate OutOfRange(f: Format, c: nat, e: int) {
    e + NumDigits(c) - 1 > f.emax
  }

  function NearestExponent(f: Format, e: int): int {
    Min(Max(e, f.Qtiny()), f.Qmax())
  }

  /** The exponents are equal, or the difference cannot be seen: zeros beyond the same end of the range of
      exponents, both numbers out of range, or both negligible. */
  predicate Interchangeable(f: Format, c: nat, e: int, e': int) {
    || e == e'
    || (c == 0 && NearestExponent(f, e) == NearestExponent(f, e'))
    || (c > 0 && OutOfRange(f, c, e) && OutOfRange(f, c, e'))
    || (c > 0 && Negligible(f, c, e) && Negligible(f, c, e'))
  }

  /** Whatever correct rounding makes of the one exponent it makes of the other, in every mode. */
  ghost predicate RoundAlike(f: Format, neg: bool, c: nat, e: int, e': int)
    requires f.Valid()
  {
    forall m: Mode, r: DecFloat, s1: set<Flag> ::
      Rounded(f, m, ExactOf(f, neg, c, 1, e'), r, {}, s1) ==> Rounded(f, m, ExactOf(f, neg, c, 1, e), r, {}, s1)
  }

  // ---- the same conditions on exact values ----

  /** A number times a power of ten reaches another power when its digits do. */
  lemma ReachesPower(c: nat, q: nat, top: nat)
    requires c > 0
    ensures c * Pow10(q) >= Pow10(top) <==> NumDigits(c) + q > top
  {
    hide Pow10, NumDigits;
    var d := NumDigits(c);
    Pow10Add(d, q);
    Pow10Add(d - 1, q);
    MulLe(Pow10(d - 1), c, Pow10(q));
    MulLt(c, Pow10(d), Pow10(q));
    if d + q > top {
      Pow10Monotone(top, d - 1 + q);
    } else {
      Pow10Monotone(d + q, top);
    }
  }

  lemma HugeIsOutOfRange(f: Format, neg: bool, c: nat, e: int)
    requires f.Valid() && c > 0
    ensures Huge(f, ExactOf(f, neg, c, 1, e)) <==> OutOfRange(f, c, e)
  {
    hide Pow10, NumDigits;
    var top, q := f.pmax + f.Top(), e - f.Qtiny();
    if q >= 0 {
      ReachesPower(c, q, top);
    } else {
      ReachesPower(c, 0, top - q);
      Pow10Add(top, 0 - q);
      TimesOne(c);
    }
  }

  lemma TinyIsNegligible(f: Format, neg: bool, c: nat, e: int)
    requires f.Valid() && c > 0
    ensures Tiny(ExactOf(f, neg, c, 1, e)) <==> Negligible(f, c, e)
  {
    hide Pow10;
    if e >= f.Qtiny() {
      MulLe(1, c, Pow10(e - f.Qtiny()));
    }
  }

  // ---- interchangeable exponents round alike ----

  lemma Alike(f: Format, m: Mode, neg: bool, c: nat, e: int, e': int, r: DecFloat, s0: set<Flag>, s1: set<Flag>)
    requires f.Valid() && Interchangeable(f, c, e, e') && Rounded(f, m, ExactOf(f, neg, c, 1, e'), r, s0, s1)
    ensures Rounded(f, m, ExactOf(f, neg, c, 1, e), r, s0, s1)
  {
    var x, y := ExactOf(f, neg, c, 1, e), ExactOf(f, neg, c, 1, e');
    assert x.neg == y.neg == neg;
    hide Rounded, ExactOf, Huge, Tiny, TinyResult, Overflowed, OutOfRange, Negligible;
    if c == 0 {
      ZeroNumerator(f, neg, e);
      ZeroNumerator(f, neg, e');
      ZeroRounds(f, m, x, r, s0, s1);
      ZeroRounds(f, m, y, r, s0, s1);
    } else {
      HugeIsOutOfRange(f, neg, c, e);
      HugeIsOutOfRange(f, neg, c, e');
      TinyIsNegligible(f, neg, c, e);
      TinyIsNegligible(f, neg, c, e');
      if Huge(f, x) && Huge(f, y) {
        HugeRounds(f, m, x, r, s0, s1);
        HugeRounds(f, m, y, r, s0, s1);
      } else if Tiny(x) && Tiny(y) {
        TinyRounds(f, m, x, r, s0, s1);
        TinyRounds(f, m, y, r, s0, s1);
      }
    }
  }

  // ---- others do not ----

  /** y is at least ten times x. */
  predicate TenTimes(x: Exact, y: Exact) {
    10 * x.num * y.den <= y.num * x.den
  }

  /** A power of ten lies at or below a number of at least one unit, and above a tenth of it. */
  lemma PowerBelow(f: Format, y: Exact) returns (Y: nat)
    requires f.Valid() && y.den > 0 && y.num >= y.den && !Huge(f, y)
    ensures Datum(f, Y) && Y * y.den <= y.num < 10 * Y * y.den
  {
    var q := y.num / y.den;
    var t := NumDigits(q) - 1;
    DivModFact(y.num, y.den);
    QuotientPositive(y.num, y.den);
    Y := Pow10(t);
    PowerIsDatum(f, t, q, y.num, y.den);
    assert Pow10(t + 1) == 10 * Pow10(t);
    hide Pow10, NumDigits;
    Sandwiched(y.num, y.den, q, Y);
  }

  lemma Sandwiched(n: nat, d: nat, q: nat, Y: nat)
    requires d > 0 && n == q * d + n % d && Y <= q < 10 * Y
    ensures Y * d <= n < 10 * Y * d
  {
    MulLe(Y, q, d);
    MulLe(q + 1, 10 * Y, d);
    assert (q + 1) * d == q * d + d;
  }

  lemma QuotientPositive(n: nat, d: nat)
    requires n >= d > 0
    ensures n / d >= 1
  {
    DivModFact(n, d);
    if n / d < 1 { MulLe(n / d, 0, d); }
  }

  lemma IsDatum(f: Format, c: nat, i: nat, Y: nat)
    requires f.Valid() && Writes(f, c, i, Y)
    ensures Datum(f, Y)
  {
  }

  lemma PowerInRange(f: Format, t: nat)
    requires f.Valid() && t < f.pmax + f.Top()
    ensures Datum(f, Pow10(t))
  {
    hide Pow10, Datum;
    if t <= f.Top() {
      Pow10Grows(0, f.pmax);
      IsDatum(f, 1, t, Pow10(t));
    } else {
      Pow10Split(f.Top(), t);
      Pow10Grows(t - f.Top(), f.pmax);
      IsDatum(f, Pow10(t - f.Top()), f.Top(), Pow10(t));
    }
  }

  lemma PowerIsDatum(f: Format, t: nat, q: nat, n: nat, d: nat)
    requires f.Valid() && d > 0 && q >= Pow10(t) && n >= q * d && n < Pow10(f.pmax + f.Top()) * d
    ensures Datum(f, Pow10(t))
  {
    hide Pow10, Datum;
    var P := Pow10(f.pmax + f.Top());
    CancelLt(q, P, d);
    Pow10Order(t, f.pmax + f.Top());
    PowerInRange(f, t);
  }

  /** Rounding down tells a number of at least one unit, in range, from any number a tenth as large. */
  lemma DownDiffers(f: Format, x: Exact, y: Exact, r: DecFloat, s: set<Flag>, t: set<Flag>)
    requires f.Valid() && x.den > 0 && y.den > 0 && TenTimes(x, y) && y.num >= y.den && !Huge(f, y)
    requires Rounded(f, Down, x, r, {}, s)
    ensures !Rounded(f, Down, y, r, {}, t)
  {
    if Rounded(f, Down, y, r, {}, t) {
      var Y := PowerBelow(f, y);
      DirectedDown(f, Down, x, r, {}, s);
      DirectedDown(f, Down, y, r, {}, t);
      hide Rounded, Datum, Huge;
      TenthBelow(x.num, x.den, y.num, y.den, Y);
      CancelLt(Units(f, r), Y, x.den);
    }
  }

  lemma TenthBelow(a: nat, b: nat, n: nat, d: nat, Y: nat)
    requires 10 * a * d <= n * b && n < 10 * Y * d && b > 0 && d > 0
    ensures a < Y * b
  {
    MulLt(n, 10 * Y * d, b);
    assert 10 * a * d == a * (10 * d);
    assert 10 * Y * d * b == Y * b * (10 * d);
    CancelLt(a, Y * b, 10 * d);
  }

  /** Rounding half up does not lose a number that reaches half a unit. */
  lemma HalfUpSees(f: Format, y: Exact, r: DecFloat, t: set<Flag>)
    requires f.Valid() && y.den > 0 && !Tiny(y) && 0 < y.num < y.den && Rounded(f, HalfUp, y, r, {}, t)
    ensures r.Finite? ==> r.Fits(f) && Units(f, r) > 0
  {
    Nearest(f, HalfUp, y, r, {}, t);
    OneIsDatum(f);
    assert r.Finite? ==> NoCloser(HalfUp, y, Units(f, r), r.coef % 2 == 0, 1);
    hide Rounded, Datum;
  }

  lemma TinyLost(f: Format, x: Exact, r: DecFloat, s: set<Flag>)
    requires f.Valid() && x.den > 0 && Tiny(x) && Rounded(f, HalfUp, x, r, {}, s)
    ensures r.Finite? && r.Fits(f) && Units(f, r) == 0
  {
    TinyRounds(f, HalfUp, x, r, {}, s);
  }

  lemma OneIsDatum(f: Format)
    requires f.Valid()
    ensures Datum(f, 1)
  {
    Pow10Grows(0, f.pmax);
    assert Pow10(0) == 1;
    assert Writes(f, 1, 0, 1);
  }

  /** A number out of range raises Overflow; rounding down, one in range does not. */
  lemma OverflowDiffers(f: Format, x: Exact, y: Exact, r: DecFloat, s: set<Flag>, t: set<Flag>)
    requires f.Valid() && x.den > 0 && y.den > 0 && Huge(f, y) && !Huge(f, x)
    requires Rounded(f, Down, x, r, {}, s) && Rounded(f, Down, y, r, {}, t)
    ensures s != t
  {
    HugeRounds(f, Down, y, r, {}, t);
    var j: nat :| Quantum(f, x, j) && r == Finish(f, Down, x, j).df && s == {} + Finish(f, Down, x, j).flags;
    FinishKeeps(f, Down, x, j);
    var q, _, _ := Cut(Down, x, j);
    hide Finish, Quantum, Pow10;
    if q * Pow10(j) >= Pow10(f.pmax + f.Top()) {
      MulLe(Pow10(f.pmax + f.Top()), q * Pow10(j), x.den);
    }
    assert Overflow !in RoundFlags(f, x, j);
  }

  lemma LaterTenTimes(f: Format, neg: bool, c: nat, e: int, e': int)
    requires f.Valid() && e < e'
    ensures TenTimes(ExactOf(f, neg, c, 1, e), ExactOf(f, neg, c, 1, e'))
  {
    ExactForm(f, neg, c, 1, e);
    ExactForm(f, neg, c, 1, e');
    ScaleShift(f, e', e' - e);
    Pow10Grows(0, e' - e);
    assert Pow10(0) == 1;
    hide Pow10, ExactOf, NumScale, DenScale;
    TenTimesScaled(c, NumScale(f, e), DenScale(f, e), NumScale(f, e'), DenScale(f, e'), Pow10(e' - e));
  }

  lemma TenTimesScaled(c: nat, n: nat, d: nat, n': nat, d': nat, p: nat)
    requires n' * d == p * (n * d') && p >= 10
    ensures 10 * (c * n) * (1 * d') <= c * n' * (1 * d)
  {
    MulLe(10, p, n * d');
    MulLe(10 * (n * d'), n' * d, c);
    assert c * (10 * (n * d')) == 10 * (c * n) * d';
    assert c * (n' * d) == c * n' * d;
  }

  lemma TinyDown(x: Exact, y: Exact)
    requires x.den > 0 && y.den > 0 && TenTimes(x, y) && 0 < x.num && y.num < y.den
    ensures Tiny(x)
  {
    MulLt(y.num, y.den, x.den);
    assert 10 * x.num * y.den == 10 * x.num * y.den && y.den * x.den == x.den * y.den;
    CancelLt(10 * x.num, x.den, y.den);
  }

  /** Two different exponents for one coefficient: exact values ten times or more apart that round alike
      in every mode are both out of range or both negligible. */
  lemma OnlyFar(f: Format, neg: bool, c: nat, e: int, e': int)
    requires f.Valid() && c > 0 && e < e'
    requires forall m: Mode :: Shared(f, m, ExactOf(f, neg, c, 1, e), ExactOf(f, neg, c, 1, e'))
    ensures (OutOfRange(f, c, e) && OutOfRange(f, c, e')) || (Negligible(f, c, e) && Negligible(f, c, e'))
  {
    var x, y := ExactOf(f, neg, c, 1, e), ExactOf(f, neg, c, 1, e');
    LaterTenTimes(f, neg, c, e, e');
    HugeIsOutOfRange(f, neg, c, e);
    HugeIsOutOfRange(f, neg, c, e');
    TinyIsNegligible(f, neg, c, e);
    TinyIsNegligible(f, neg, c, e');
    PositiveNumber(f, neg, c, e);
    PositiveNumber(f, neg, c, e');
    assert Shared(f, Down, x, y) && Shared(f, HalfUp, x, y);
    hide OutOfRange, Negligible, ExactOf, Shared, TenTimes, Huge, Tiny;
    if y.num < y.den {
      TinyDown(x, y);
      HalfUpAlike(f, x, y);
    } else {
      DownAlike(f, x, y);
    }
  }

  lemma PositiveNumber(f: Format, neg: bool, c: nat, e: int)
    requires c > 0
    ensures var x := ExactOf(f, neg, c, 1, e);
      x.num > 0 && x.den > 0
  {
    hide Pow10;
    if e >= f.Qtiny() { MulLe(1, c, Pow10(e - f.Qtiny())); }
  }

  /** There is a result that is correct for both. */
  ghost predicate Shared(f: Format, m: Mode, x: Exact, y: Exact)
    requires f.Valid() && x.den > 0 && y.den > 0
  {
    exists r: DecFloat, s: set<Flag> :: Rounded(f, m, x, r, {}, s) && Rounded(f, m, y, r, {}, s)
  }

  lemma DownAlike(f: Format, x: Exact, y: Exact)
    requires f.Valid() && x.den > 0 && y.den > 0 && TenTimes(x, y) && y.num >= y.den && Shared(f, Down, x, y)
    ensures Huge(f, x) && Huge(f, y)
  {
    var r: DecFloat, s: set<Flag> :| Rounded(f, Down, x, r, {}, s) && Rounded(f, Down, y, r, {}, s);
    hide Rounded, TenTimes, Huge;
    if !Huge(f, y) {
      DownDiffers(f, x, y, r, s, s);
    } else if !Huge(f, x) {
      OverflowDiffers(f, x, y, r, s, s);
    }
  }

  lemma HalfUpAlike(f: Format, x: Exact, y: Exact)
    requires f.Valid() && x.den > 0 && y.den > 0 && Tiny(x) && 0 < y.num < y.den && Shared(f, HalfUp, x, y)
    ensures Tiny(y)
  {
    var r: DecFloat, s: set<Flag> :| Rounded(f, HalfUp, x, r, {}, s) && Rounded(f, HalfUp, y, r, {}, s);
    hide Rounded, Tiny;
    TinyLost(f, x, r, s);
    if !Tiny(y) {
      HalfUpSees(f, y, r, s);
    }
  }

  /** Zeros round alike when their exponents are brought to the same end of the range, or are equal. */
  lemma ZerosAlike(f: Format, neg: bool, e: int, e': int)
    requires f.Valid() && Shared(f, Down, ExactOf(f, neg, 0, 1, e), ExactOf(f, neg, 0, 1, e'))
    ensures Interchangeable(f, 0, e, e')
  {
    var x, y := ExactOf(f, neg, 0, 1, e), ExactOf(f, neg, 0, 1, e');
    var r: DecFloat, s: set<Flag> :| Rounded(f, Down, x, r, {}, s) && Rounded(f, Down, y, r, {}, s);
    ZeroNumerator(f, neg, e);
    ZeroNumerator(f, neg, e');
    hide Rounded, ExactOf;
    ZeroRounds(f, Down, x, r, {}, s);
    ZeroRounds(f, Down, y, r, {}, s);
  }

  lemma SharedResults(f: Format, neg: bool, c: nat, e: int, e': int)
    requires f.Valid() && RoundAlike(f, neg, c, e, e')
    ensures forall m: Mode :: Shared(f, m, ExactOf(f, neg, c, 1, e), ExactOf(f, neg, c, 1, e'))
    ensures forall m: Mode :: Shared(f, m, ExactOf(f, neg, c, 1, e'), ExactOf(f, neg, c, 1, e))
  {
    var x, y := ExactOf(f, neg, c, 1, e), ExactOf(f, neg, c, 1, e');
    forall m: Mode
      ensures Shared(f, m, x, y) && Shared(f, m, y, x)
    {
      RoundedTotal(f, m, y, {});
      var r: DecFloat, s: set<Flag> :| Rounded(f, m, y, r, {}, s);
      assert Rounded(f, m, x, r, {}, s);
    }
  }

  /** Two exponents round alike in every mode exactly when they are interchangeable. */
  lemma AlikeIffInterchangeable(f: Format, neg: bool, c: nat, e: int, e': int)
    requires f.Valid()
    ensures RoundAlike(f, neg, c, e, e') <==> Interchangeable(f, c, e, e')
  {
    if Interchangeable(f, c, e, e') {
      forall m: Mode, r: DecFloat, s1: set<Flag> | Rounded(f, m, ExactOf(f, neg, c, 1, e'), r, {}, s1)
        ensures Rounded(f, m, ExactOf(f, neg, c, 1, e), r, {}, s1)
      {
        Alike(f, m, neg, c, e, e', r, {}, s1);
      }
    }
    if RoundAlike(f, neg, c, e, e') && e != e' {
      SharedResults(f, neg, c, e, e');
      hide Rounded, ExactOf, RoundAlike, Shared, OutOfRange, Negligible;
      if c == 0 {
        ZerosAlike(f, neg, e, e');
      } else if e < e' {
        OnlyFar(f, neg, c, e, e');
      } else {
        OnlyFar(f, neg, c, e', e);
      }
    }
  }
}
