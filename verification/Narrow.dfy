/** Round-for-reround: rounding in a wider format under ReRound05 and then narrowing is the
    same as rounding once, directly, to the narrower format. */
module Narrow {
  import opened Powers
  import opened Digits
  import opened Formats
  import opened Rounding
  import opened Integers
  import opened StandIns
  import opened Meaning
  import opened Existence
  import opened Finalize
  import opened Coefficients
  import opened QuotientLayout

  /** g is wide enough to round in on the way to f. */
  predicate Wider(g: Format, f: Format) {
    g.Valid() && f.Valid() && f.pmax < g.pmax && g.Qtiny() < f.Qtiny() && f.emax < g.Qmax()
  }

  lemma WiderFormats()
    ensures Wider(QUAD, DOUBLE) && Wider(DOUBLE, SINGLE) && Wider(QUAD, SINGLE)
  {
  }

  // ---- an inexact first rounding ----

  /** An inexact result keeps all its digits, unless it is at the bottom of the range. */
  lemma ReRoundDigits(g: Format, x: Exact, r: DecFloat, s1: set<Flag>)
    requires g.Valid() && x.den > 0 && Rounded(g, ReRound05, x, r, {}, s1) && Inexact in s1 && Overflow !in s1
    ensures r.Finite? && (r.exp == g.Qtiny() || r.coef >= Pow10(g.pmax - 1))
  {
    var j: nat :| Quantum(g, x, j) && r == Finish(g, ReRound05, x, j).df && s1 == {} + Finish(g, ReRound05, x, j).flags;
    FinishKeeps(g, ReRound05, x, j);
    var k := Significand(ReRound05, x, j);
    assert !IntegralAt(x, j);
    Meaning.ReRoundDigit(g, x, j);
    hide Pow10, Significand, Quantum, RoundInt;
    if j > 0 {
      SignificandLowest(g, ReRound05, x, j);
      Pow10Add(g.pmax - 1, j);
      CancelLe(Pow10(g.pmax - 1), k, Pow10(j));
      if j > g.Top() {
        Pow10Monotone(g.pmax + g.Top(), g.pmax + j - 1);
        assert false;
      }
    }
  }

  /** The value n/d*10^e in units of 10^q. */
  function NumUnits(n: nat, e: int, q: int): nat {
    if q >= e then n else n * Pow10(e - q)
  }

  function DenUnits(d: nat, e: int, q: int): nat {
    if q >= e then d * Pow10(q - e) else d
  }

  lemma DenUnitsPositive(d: nat, e: int, q: int)
    requires d > 0
    ensures DenUnits(d, e, q) > 0
  {
    if q >= e { MulLt(0, d, Pow10(q - e)); }
  }

  /** Those units are the units of the format, up to a factor. */
  lemma UnitsOf(g: Format, neg: bool, n: nat, d: nat, e: int, q: int) returns (t: nat)
    requires d > 0 && q >= g.Qtiny()
    ensures var x := ExactOf(g, neg, n, d, e);
      t > 0 && x.num == NumUnits(n, e, q) * t && x.den * Pow10(q - g.Qtiny()) == DenUnits(d, e, q) * t
  {
    if q >= e {
      t := Coarser(g, neg, n, d, e, q);
    } else {
      t := Finer(g, neg, n, d, e, q);
    }
  }

  /** A rounding within one unit, seen in those units. */
  lemma WithinOne(M: nat, N: nat, D: nat, p: nat, den: nat, num: nat, t: nat)
    requires t > 0 && num == N * t && den * p == D * t && Distance(M * p * den, num) < p * den
    ensures Distance(M * D, N) < D
  {
    assert M * p * den == M * D * t by {
      MulAssoc(M, p, den);
      MulAssoc(M, D, t);
    }
    assert p * den == D * t;
    if M * D >= N {
      assert (M * D - N) * t == M * D * t - N * t;
      if M * D - N >= D { MulLe(D, M * D - N, t); }
    } else {
      assert (N - M * D) * t == N * t - M * D * t;
      if N - M * D >= D { MulLe(D, N - M * D, t); }
    }
  }

  /** A coefficient that does not end in 0 or 5 shares its cell of five with anything within one unit. */
  lemma CellOfFive(M: nat, N: nat, D: nat)
    requires D > 0 && M % 5 != 0 && Distance(M * D, N) < D
    ensures ShareCell(N, D, M, M / 5, 5)
  {
    var k, r := M / 5, M % 5;
    assert M == 5 * k + r && 1 <= r <= 4;
    assert M * D == 5 * k * D + r * D by { assert (5 * k + r) * D == 5 * k * D + r * D; }
    MulLe(1, r, D);
    MulLe(r + 1, 5, D);
    assert (r + 1) * D == r * D + D;
    assert k * 5 * D == 5 * k * D && (k + 1) * 5 * D == 5 * k * D + 5 * D;
  }

  /** Moving the fraction to the exponent where it was written. */
  lemma MoveBack(f: Format, m: Mode, neg: bool, n: nat, d: nat, e: int, q: int, r: DecFloat, s0: set<Flag>, s1: set<Flag>)
    requires f.Valid() && d > 0 && DenUnits(d, e, q) > 0
    requires Rounded(f, m, ExactOf(f, neg, NumUnits(n, e, q), DenUnits(d, e, q), q).(ideal := e - f.Qtiny()), r, s0, s1)
    ensures Rounded(f, m, ExactOf(f, neg, n, d, e), r, s0, s1)
  {
    hide Rounded, ExactOf;
    ExactForm(f, neg, n, d, e);
    if q >= e {
      assert e + (q - e) == q;
      RespellDown(f, m, neg, n, d, e, q - e, e - f.Qtiny(), r, s0, s1);
    } else {
      assert e - (e - q) == q;
      Respell(f, m, neg, n, d, e, e - q, e - f.Qtiny(), r, s0, s1);
    }
  }

  /** More digits than the narrower format keeps. */
  lemma DigitsToDrop(g: Format, f: Format, c: nat, e: int)
    requires Wider(g, f) && (e == g.Qtiny() || c >= Pow10(g.pmax - 1))
    ensures Drop(f, NumDigits(c), e) >= 1
  {
    if e != g.Qtiny() && NumDigits(c) < g.pmax {
      Pow10Monotone(NumDigits(c), g.pmax - 1);
    }
  }

  lemma InexactNarrows(g: Format, f: Format, m: Mode, neg: bool, n: nat, d: nat, e: int, r: DecFloat, s: set<Flag>,
                       r2: DecFloat, s0: set<Flag>, s1: set<Flag>)
    requires Wider(g, f) && d > 0 && Rounded(g, ReRound05, ExactOf(g, neg, n, d, e), r, {}, s)
    requires Inexact in s && Overflow !in s && r.Finite?
    requires Rounded(f, m, ExactOf(f, r.neg, r.coef, 1, r.exp), r2, s0, s1)
    ensures Rounded(f, m, ExactOf(f, neg, n, d, e), r2, s0, s1)
  {
    hide Rounded, ExactOf, Pow10, NumDigits, Drop, ShareCell, NumUnits, DenUnits;
    var x, q := ExactOf(g, neg, n, d, e), r.exp;
    NegOf(g, neg, n, d, e);
    ReRoundTrace(g, x, r, s);
    ReRoundDigits(g, x, r, s);
    DigitsToDrop(g, f, r.coef, q);
    var t := UnitsOf(g, neg, n, d, e, q);
    var N, D := NumUnits(n, e, q), DenUnits(d, e, q);
    DenUnitsPositive(d, e, q);
    WithinOne(r.coef, N, D, Pow10(q - g.Qtiny()), x.den, x.num, t);
    CellOfFive(r.coef, N, D);
    TimesOne(5);
    CellStandIn(f, m, neg, N, D, q, e - f.Qtiny(), r.coef, r.coef / 5, 5, 1, 0, r2, s0, s1);
    MoveBack(f, m, neg, n, d, e, q, r2, s0, s1);
  }

  lemma NegOf(f: Format, neg: bool, n: nat, d: nat, e: int)
    requires d > 0
    ensures ExactOf(f, neg, n, d, e).neg == neg && ExactOf(f, neg, n, d, e).ideal == e - f.Qtiny()
  {
  }

  // ---- a first rounding that overflows ----

  /** The value is at least ten to the power T. */
  predicate AtLeast(n: nat, d: nat, e: int, T: int) {
    NumUnits(n, e, T) >= DenUnits(d, e, T)
  }

  lemma AtLeastUnits(g: Format, neg: bool, n: nat, d: nat, e: int, T: int)
    requires d > 0 && T >= g.Qtiny()
    ensures var x := ExactOf(g, neg, n, d, e);
      x.num >= Pow10(T - g.Qtiny()) * x.den <==> AtLeast(n, d, e, T)
  {
    hide ExactOf, Pow10, NumUnits, DenUnits;
    var t := UnitsOf(g, neg, n, d, e, T);
    var x := ExactOf(g, neg, n, d, e);
    CommonFactor(x.num, x.den, Pow10(T - g.Qtiny()), NumUnits(n, e, T), DenUnits(d, e, T), t);
  }

  lemma CommonFactor(num: nat, den: nat, p: nat, N: nat, D: nat, t: nat)
    requires t > 0 && num == N * t && den * p == D * t
    ensures num >= p * den <==> N >= D
  {
    if N >= D { MulLe(D, N, t); } else { MulLt(N, D, t); }
  }

  /** Above the wider format's range is above the narrower one's. */
  lemma BeyondBoth(g: Format, f: Format, neg: bool, n: nat, d: nat, e: int)
    requires Wider(g, f) && d > 0
    requires var x := ExactOf(g, neg, n, d, e); x.num > Nmax(g) * x.den
    ensures Huge(f, ExactOf(f, neg, n, d, e))
  {
    var x := ExactOf(g, neg, n, d, e);
    var T := f.emax + 1;
    NmaxLarge(g, T);
    hide ExactOf, Pow10, Nmax, AtLeast;
    MulLe(Pow10(T - g.Qtiny()), Nmax(g), x.den);
    AtLeastUnits(g, neg, n, d, e, T);
    AtLeastUnits(f, neg, n, d, e, T);
  }

  lemma NmaxLarge(g: Format, T: int)
    requires g.Valid() && g.Qtiny() <= T <= g.Qmax()
    ensures Pow10(T - g.Qtiny()) <= Nmax(g)
  {
    Pow10Monotone(T - g.Qtiny(), g.Top());
    Pow10Grows(0, g.pmax);
    MulLe(1, Pow10(g.pmax) - 1, Pow10(g.Top()));
  }

  /** A non-zero coefficient at the top exponent of the wider format is beyond the narrower one. */
  lemma TopIsHuge(f: Format, neg: bool, c: nat, e: int)
    requires f.Valid() && c > 0 && e > f.emax
    ensures Huge(f, ExactOf(f, neg, c, 1, e))
  {
    AtLeastUnits(f, neg, c, 1, e, f.emax + 1);
    MulLe(1, c, Pow10(e - (f.emax + 1)));
  }

  lemma OverflowNarrows(g: Format, f: Format, m: Mode, neg: bool, n: nat, d: nat, e: int, r: DecFloat, s: set<Flag>,
                        r2: DecFloat, s0: set<Flag>, s1: set<Flag>)
    requires Wider(g, f) && d > 0 && Rounded(g, ReRound05, ExactOf(g, neg, n, d, e), r, {}, s) && Overflow in s && r.Finite?
    requires Rounded(f, m, ExactOf(f, r.neg, r.coef, 1, r.exp), r2, s0, s1)
    ensures Rounded(f, m, ExactOf(f, neg, n, d, e), r2, s0, s1)
  {
    NegOf(g, neg, n, d, e);
    NegOf(f, neg, n, d, e);
    NegOf(f, r.neg, r.coef, 1, r.exp);
    Pow10Grows(0, g.pmax);
    hide Rounded, ExactOf, Pow10, Nmax, Huge;
    StatusMeaning(g, ReRound05, ExactOf(g, neg, n, d, e), r, s);
    assert r == Finite(neg, Pow10(g.pmax) - 1, g.Qmax());
    TopIsHuge(f, neg, r.coef, r.exp);
    BeyondBoth(g, f, neg, n, d, e);
    HugeRounds(f, m, ExactOf(f, neg, r.coef, 1, r.exp), r2, s0, s1);
    HugeRounds(f, m, ExactOf(f, neg, n, d, e), r2, s0, s1);
  }

  // ---- an exact first rounding ----

  /** A zero takes the exponent nearest its ideal one. */
  lemma ZeroRounds(f: Format, m: Mode, x: Exact, r: DecFloat, s0: set<Flag>, s1: set<Flag>)
    requires f.Valid() && x.den > 0 && x.num == 0
    ensures Rounded(f, m, x, r, s0, s1) <==>
      r == Finite(x.neg, 0, f.Qtiny() + Min(Max(0, x.ideal), f.Top())) && s1 == s0
  {
    forall j: nat
      ensures IntegralAt(x, j) && FitsAt(f, x, j) && Finish(f, m, x, j) == Outcome(Finite(x.neg, 0, f.Qtiny() + Min(j, f.Top())), {})
      ensures Quantum(f, x, j) <==> j == Max(0, x.ideal)
    {
      ZeroAt(f, m, x, j);
      ZeroAt(f, m, x, j + 1);
      if j > 0 { ZeroAt(f, m, x, j - 1); }
    }
  }

  lemma ZeroAt(f: Format, m: Mode, x: Exact, j: nat)
    requires f.Valid() && x.den > 0 && x.num == 0
    ensures IntegralAt(x, j) && FitsAt(f, x, j) && Finish(f, m, x, j) == Outcome(Finite(x.neg, 0, f.Qtiny() + Min(j, f.Top())), {})
  {
    MulLt(0, x.den, Pow10(j));
    MulLt(0, x.den, Pow10(f.pmax + j));
    DivModUnique(0, x.den * Pow10(j), 0, 0);
    Pow10Grows(0, f.pmax);
  }

  /** What an exact result's coefficient and exponent say about the exponent it would have liked. */
  predicate Preferred(g: Format, c: nat, E: int, e: int)
    requires g.Valid()
  {
    && (E == g.Qtiny() || c >= Pow10(g.pmax - 1) || E <= e)
    && (E >= e || c % 10 != 0 || E == g.Qmax())
  }

  lemma ExactShape(g: Format, m: Mode, neg: bool, n: nat, d: nat, e: int, r: DecFloat, s: set<Flag>)
    requires g.Valid() && d > 0 && Rounded(g, m, ExactOf(g, neg, n, d, e), r, {}, s) && Inexact !in s
    ensures r.Finite? && r.neg == neg && g.Qtiny() <= r.exp <= g.Qmax()
    ensures NumUnits(n, e, r.exp) == r.coef * DenUnits(d, e, r.exp)
    ensures Preferred(g, r.coef, r.exp, e)
  {
    hide ExactOf, Pow10, Quantum, Finish, NumUnits, DenUnits, Preferred, Overflows;
    var x := ExactOf(g, neg, n, d, e);
    NegOf(g, neg, n, d, e);
    StatusMeaning(g, m, x, r, s);
    var j: nat :| Quantum(g, x, j) && r == Finish(g, m, x, j).df && s == {} + Finish(g, m, x, j).flags;
    FinishSign(g, m, x, j);
    var t := UnitsOf(g, neg, n, d, e, r.exp);
    ExactUnits(r.coef, NumUnits(n, e, r.exp), DenUnits(d, e, r.exp), Pow10(r.exp - g.Qtiny()), x.den, x.num, t);
    ShapeAt(g, m, x, j, r);
  }

  lemma FinishSign(g: Format, m: Mode, x: Exact, j: nat)
    requires g.Valid() && x.den > 0 && Finish(g, m, x, j).df.Finite?
    ensures Finish(g, m, x, j).df.neg == x.neg
  {
    hide Pow10, RoundInt, RoundFlags;
  }

  lemma ExactUnits(c: nat, N: nat, D: nat, p: nat, den: nat, num: nat, t: nat)
    requires t > 0 && num == N * t && den * p == D * t && c * p * den == num
    ensures N == c * D
  {
    assert c * p * den == c * D * t by {
      MulAssoc(c, p, den);
      MulAssoc(c, D, t);
    }
    if N < c * D { MulLt(N, c * D, t); } else if c * D < N { MulLt(c * D, N, t); }
  }

  /** The quantum of an exact result, read off the result. */
  lemma ShapeAt(g: Format, m: Mode, x: Exact, j: nat, r: DecFloat)
    requires g.Valid() && x.den > 0 && Quantum(g, x, j) && r == Finish(g, m, x, j).df
    requires r.Finite? && r.Fits(g) && Units(g, r) * x.den == x.num
    ensures Preferred(g, r.coef, r.exp, x.ideal + g.Qtiny())
  {
    var E := r.exp - g.Qtiny();
    assert Represents(g, x, r.coef, E);
    RepresentsFacts(g, x, r.coef, E);
    ShapeExponent(g, m, x, j, r);
    if E < x.ideal && r.exp != g.Qmax() && r.coef % 10 == 0 {
      TenfoldIntegral(x, r.coef, E);
      assert false;
    }
    if E > 0 && E > x.ideal && r.coef < Pow10(g.pmax - 1) {
      SmallerFits(g, x, r.coef, E);
      if j > E {
        FitsGrows(g, x, E - 1, j - 1);
      }
      assert false;
    }
  }

  /** The exponent of an exact result is the one it was rounded at, unless that is above the range. */
  lemma ShapeExponent(g: Format, m: Mode, x: Exact, j: nat, r: DecFloat)
    requires g.Valid() && x.den > 0 && Quantum(g, x, j) && r == Finish(g, m, x, j).df
    requires r.Finite? && r.Fits(g) && Units(g, r) * x.den == x.num
    ensures r.exp - g.Qtiny() == Min(j, g.Top())
  {
    var E := r.exp - g.Qtiny();
    assert Represents(g, x, r.coef, E);
    RepresentsFacts(g, x, r.coef, E);
    if j <= E {
      IntegralShrinks(x, j, E);
    } else {
      FitsGrows(g, x, E, j - 1);
    }
    ExactKept(g, m, x, j);
  }

  lemma TenfoldIntegral(x: Exact, c: nat, E: nat)
    requires x.den > 0 && c % 10 == 0 && c * Pow10(E) * x.den == x.num
    ensures IntegralAt(x, E + 1)
  {
    var k := c / 10;
    var p := Pow10(E);
    MulLt(0, x.den, Pow10(E + 1));
    assert x.num == k * (x.den * (10 * p)) by {
      assert c == 10 * k;
      assert 10 * k * p * x.den == k * (x.den * (10 * p));
    }
    DivModUnique(x.num, x.den * Pow10(E + 1), k, 0);
  }

  lemma SmallerFits(g: Format, x: Exact, c: nat, E: nat)
    requires g.Valid() && x.den > 0 && E > 0 && c < Pow10(g.pmax - 1) && c * Pow10(E) * x.den == x.num
    ensures FitsAt(g, x, E - 1)
  {
    hide Pow10;
    Pow10Add(g.pmax - 1, E);
    MulLt(c, Pow10(g.pmax - 1), Pow10(E));
    MulLt(c * Pow10(E), Pow10(g.pmax + E - 1), x.den);
  }

  /** Rounding at the narrower format prefers the same exponent whether it is told the original
      ideal or the exponent the wider format settled on. */
  lemma IdealComposes(g: Format, f: Format, neg: bool, c: nat, E: int, e: int, j: nat)
    requires Wider(g, f) && 0 < c && E <= g.Qmax() && g.Qtiny() <= E && Preferred(g, c, E, e)
    requires Quantum(f, ExactOf(f, neg, c, 1, E), j) && E <= f.emax
    ensures Quantum(f, ExactOf(f, neg, c, 1, E).(ideal := e - f.Qtiny()), j)
  {
    var y, J := ExactOf(f, neg, c, 1, E), f.Qtiny() + j;
    NegOf(f, neg, c, 1, E);
    var z := y.(ideal := e - f.Qtiny());
    assert FitsAt(f, z, j) && (j > 0 ==> FitsAt(f, z, j - 1) == FitsAt(f, y, j - 1));
    assert IntegralAt(z, j) == IntegralAt(y, j) && IntegralAt(z, j + 1) == IntegralAt(y, j + 1);
    if j > 0 && FitsAt(f, y, j - 1) && e < J {
      LongCoefficient(g, f, neg, c, E, J - 1);
      assert false;
    }
    if J < e && IntegralAt(y, j + 1) {
      NotTenfold(f, neg, c, E, J + 1);
      assert false;
    }
  }

  /** A coefficient with all the wider format's digits does not fit the narrower one at a finer exponent. */
  lemma LongCoefficient(g: Format, f: Format, neg: bool, c: nat, E: int, q: int)
    requires Wider(g, f) && c >= Pow10(g.pmax - 1) && f.Qtiny() <= q < E
    ensures !FitsAt(f, ExactOf(f, neg, c, 1, E), q - f.Qtiny())
  {
    FitsFinerEqual(f, neg, c, 1, E, q);
    Pow10Monotone(f.pmax, g.pmax - 1);
    MulLe(1, Pow10(E - q), c);
  }

  lemma ExactNarrows(g: Format, f: Format, m: Mode, neg: bool, n: nat, d: nat, e: int, r: DecFloat, s: set<Flag>,
                     r2: DecFloat, s0: set<Flag>, s1: set<Flag>)
    requires Wider(g, f) && d > 0 && Rounded(g, ReRound05, ExactOf(g, neg, n, d, e), r, {}, s) && Inexact !in s && r.Finite?
    requires r.coef > 0 && r.exp <= f.emax
    requires Rounded(f, m, ExactOf(f, r.neg, r.coef, 1, r.exp), r2, s0, s1)
    ensures Rounded(f, m, ExactOf(f, neg, n, d, e), r2, s0, s1)
  {
    hide ExactOf, Finish, Preferred, NumUnits, DenUnits;
    ExactShape(g, ReRound05, neg, n, d, e, r, s);
    var c, E := r.coef, r.exp;
    var y := ExactOf(f, neg, c, 1, E);
    var z := y.(ideal := e - f.Qtiny());
    var j: nat :| Quantum(f, y, j) && r2 == Finish(f, m, y, j).df && s1 == s0 + Finish(f, m, y, j).flags;
    IdealComposes(g, f, neg, c, E, e, j);
    SameFinish(f, m, y, e - f.Qtiny(), j);
    assert Rounded(f, m, z, r2, s0, s1);
    hide Rounded, Quantum;
    DenUnitsPositive(d, e, E);
    SameFraction(f, m, neg, NumUnits(n, e, E), DenUnits(d, e, E), c, E, e - f.Qtiny(), r2, s0, s1);
    MoveBack(f, m, neg, n, d, e, E, r2, s0, s1);
  }

  lemma SameFinish(f: Format, m: Mode, x: Exact, i: int, j: nat)
    requires f.Valid() && x.den > 0
    ensures Finish(f, m, x.(ideal := i), j) == Finish(f, m, x, j)
  {
  }

  /** An exact zero. */
  lemma ZeroNarrows(g: Format, f: Format, m: Mode, neg: bool, d: nat, e: int, r: DecFloat, s: set<Flag>,
                    r2: DecFloat, s0: set<Flag>, s1: set<Flag>)
    requires Wider(g, f) && d > 0 && Rounded(g, ReRound05, ExactOf(g, neg, 0, d, e), r, {}, s) && r.Finite?
    requires Rounded(f, m, ExactOf(f, r.neg, r.coef, 1, r.exp), r2, s0, s1)
    ensures Rounded(f, m, ExactOf(f, neg, 0, d, e), r2, s0, s1)
  {
    ZeroNum(g, neg, d, e);
    ZeroNum(f, neg, d, e);
    hide Rounded, ExactOf;
    ZeroRounds(g, ReRound05, ExactOf(g, neg, 0, d, e), r, {}, s);
    ZeroNum(f, neg, 1, r.exp);
    ZeroRounds(f, m, ExactOf(f, r.neg, r.coef, 1, r.exp), r2, s0, s1);
    ZeroRounds(f, m, ExactOf(f, neg, 0, d, e), r2, s0, s1);
  }

  lemma ZeroNum(f: Format, neg: bool, d: nat, e: int)
    requires d > 0
    ensures ExactOf(f, neg, 0, d, e).num == 0 && ExactOf(f, neg, 0, d, e).neg == neg && ExactOf(f, neg, 0, d, e).ideal == e - f.Qtiny()
  {
  }

  /** An exact value too large for the narrower format. */
  lemma HugeNarrows(g: Format, f: Format, m: Mode, neg: bool, n: nat, d: nat, e: int, r: DecFloat, s: set<Flag>,
                    r2: DecFloat, s0: set<Flag>, s1: set<Flag>)
    requires Wider(g, f) && d > 0 && Rounded(g, ReRound05, ExactOf(g, neg, n, d, e), r, {}, s) && Inexact !in s && r.Finite?
    requires r.coef > 0 && r.exp > f.emax
    requires Rounded(f, m, ExactOf(f, r.neg, r.coef, 1, r.exp), r2, s0, s1)
    ensures Rounded(f, m, ExactOf(f, neg, n, d, e), r2, s0, s1)
  {
    NegOf(f, neg, n, d, e);
    NegOf(f, neg, r.coef, 1, r.exp);
    hide Rounded, ExactOf, Huge, NumUnits, DenUnits, Preferred, AtLeast;
    ExactShape(g, ReRound05, neg, n, d, e, r, s);
    TopIsHuge(f, neg, r.coef, r.exp);
    SameMagnitude(f, neg, n, d, e, r.coef, r.exp);
    HugeRounds(f, m, ExactOf(f, neg, r.coef, 1, r.exp), r2, s0, s1);
    HugeRounds(f, m, ExactOf(f, neg, n, d, e), r2, s0, s1);
  }

  lemma SameMagnitude(f: Format, neg: bool, n: nat, d: nat, e: int, c: nat, E: int)
    requires f.Valid() && d > 0 && c > 0 && E > f.emax && NumUnits(n, e, E) == c * DenUnits(d, e, E)
    ensures Huge(f, ExactOf(f, neg, n, d, e))
  {
    var x := ExactOf(f, neg, n, d, e);
    hide ExactOf, Pow10, NumUnits, DenUnits;
    var t := UnitsOf(f, neg, n, d, e, E);
    var D := DenUnits(d, e, E);
    assert x.num >= x.den * Pow10(E - f.Qtiny()) by {
      MulAssoc(c, D, t);
      MulLe(1, c, D * t);
    }
    Pow10Monotone(f.pmax + f.Top(), E - f.Qtiny());
    MulLe(Pow10(f.pmax + f.Top()), Pow10(E - f.Qtiny()), x.den);
  }

  /** Rounding under ReRound05 in a wider format first changes nothing: not the result, not the
      status, not the exponent of an exact result, for any value, mode and pending status. */
  lemma ReRoundNarrows(g: Format, f: Format, m: Mode, neg: bool, n: nat, d: nat, e: int, r: DecFloat, s: set<Flag>,
                       r2: DecFloat, s0: set<Flag>, s1: set<Flag>)
    requires Wider(g, f) && d > 0 && Rounded(g, ReRound05, ExactOf(g, neg, n, d, e), r, {}, s)
    ensures r.Finite?
    ensures Rounded(f, m, ExactOf(f, r.neg, r.coef, 1, r.exp), r2, s0, s1) <==>
      Rounded(f, m, ExactOf(f, neg, n, d, e), r2, s0, s1)
  {
    hide Rounded, ExactOf;
    ReRoundTrace(g, ExactOf(g, neg, n, d, e), r, s);
    if Rounded(f, m, ExactOf(f, r.neg, r.coef, 1, r.exp), r2, s0, s1) {
      Narrows(g, f, m, neg, n, d, e, r, s, r2, s0, s1);
    }
    if Rounded(f, m, ExactOf(f, neg, n, d, e), r2, s0, s1) {
      RoundedTotal(f, m, ExactOf(f, r.neg, r.coef, 1, r.exp), s0);
      var r3: DecFloat, s3: set<Flag> :| Rounded(f, m, ExactOf(f, r.neg, r.coef, 1, r.exp), r3, s0, s3);
      Narrows(g, f, m, neg, n, d, e, r, s, r3, s0, s3);
      RoundedUnique(f, m, ExactOf(f, neg, n, d, e), r2, r3, s0, s1, s3);
    }
  }

  lemma Narrows(g: Format, f: Format, m: Mode, neg: bool, n: nat, d: nat, e: int, r: DecFloat, s: set<Flag>,
                r2: DecFloat, s0: set<Flag>, s1: set<Flag>)
    requires Wider(g, f) && d > 0 && Rounded(g, ReRound05, ExactOf(g, neg, n, d, e), r, {}, s) && r.Finite?
    requires Rounded(f, m, ExactOf(f, r.neg, r.coef, 1, r.exp), r2, s0, s1)
    ensures Rounded(f, m, ExactOf(f, neg, n, d, e), r2, s0, s1)
  {
    hide Rounded, ExactOf;
    if n == 0 {
      ZeroNarrows(g, f, m, neg, d, e, r, s, r2, s0, s1);
    } else if Overflow in s {
      OverflowNarrows(g, f, m, neg, n, d, e, r, s, r2, s0, s1);
    } else if Inexact in s {
      InexactNarrows(g, f, m, neg, n, d, e, r, s, r2, s0, s1);
    } else {
      NonZero(g, neg, n, d, e, r, s);
      if r.exp > f.emax {
        HugeNarrows(g, f, m, neg, n, d, e, r, s, r2, s0, s1);
      } else {
        ExactNarrows(g, f, m, neg, n, d, e, r, s, r2, s0, s1);
      }
    }
  }

  lemma NonZero(g: Format, neg: bool, n: nat, d: nat, e: int, r: DecFloat, s: set<Flag>)
    requires g.Valid() && d > 0 && n > 0 && Rounded(g, ReRound05, ExactOf(g, neg, n, d, e), r, {}, s) && Inexact !in s && r.Finite?
    ensures r.coef > 0
  {
    ExactShape(g, ReRound05, neg, n, d, e, r, s);
    if r.exp < e { MulLt(0, n, Pow10(e - r.exp)); }
    assert 0 * DenUnits(d, e, r.exp) == 0;
  }

  /** The digits a datum's coefficient field holds. */
  function Payload(x: DecFloat): nat {
    match x
    case Finite(_, c, _) => c
    case Infinite(_) => 0
    case NaN(_, _, p) => p
  }

  /** The exponent, or the code of a special value. */
  function ExponentCode(x: DecFloat): int {
    match x
    case Finite(_, _, e) => e
    case Infinite(_) => INF_CODE
    case NaN(_, signaling, _) => if signaling then SNAN_CODE else QNAN_CODE
  }

  lemma WiderFits(g: Format, f: Format, x: DecFloat)
    requires Wider(g, f) && x.Fits(g)
    ensures Payload(x) < Pow10(g.pmax) && g.pmax >= 2 && f.Valid() && (x.Finite? ==> x.exp <= g.emax)
    ensures if x.Finite? then Payload(x) == x.coef else x.NaN? ==> Payload(x) == x.payload
  {
    hide Pow10;
    Pow10Grows(0, g.pmax);
    Pow10Monotone(g.pmax - 1, g.pmax);
  }

  /** decFloatFromWider: narrows a datum; a finite one is rounded once, an infinity is kept, and
      a NaN keeps its kind and the low digits of its payload without signaling. */
  method DecFloatFromWider(g: Format, f: Format, wider: DecFloat, set_: Context) returns (r: DecFloat)
    requires Wider(g, f) && g.emax < 100000 && wider.Fits(g)
    modifies set_`status
    ensures wider.Finite? ==>
      Rounded(f, set_.round, ExactOf(f, wider.neg, wider.coef, 1, wider.exp), r, old(set_.status), set_.status)
    ensures wider.Infinite? ==> r == wider && set_.status == old(set_.status)
    ensures wider.NaN? ==>
      r == NaN(wider.neg, wider.signaling, wider.payload % Pow10(f.pmax - 1)) && set_.status == old(set_.status)
  {
    hide Rounded, ExactOf, Dec, Pow10, AllDigits, Payload, Wider;
    WiderFits(g, f, wider);
    var bcdar := new nat[g.pmax];
    GetCoeff(Payload(wider), g.pmax, bcdar, 0);
    var num := new BcdNum(bcdar, 0, g.pmax - 1, wider.neg, ExponentCode(wider));
    r := DecFinalize(f, num, set_);
  }
}
