/** The remainder identity: x - n*y is always exactly representable, and what the final
    multiply-add of a remainder operation is given never overlaps. */
module Remainders {
  import opened Powers
  import opened Formats
  import opened Rounding
  import opened Multiply
  import opened IntegerQuotient
  import opened Division
  import opened Sums
  import opened Fma

  /** Two finite operands, the right one not zero. */
  predicate Divisible(f: Format, x: DecFloat, y: DecFloat) {
    Compiled(f) && x.Finite? && x.Fits(f) && y.Finite? && y.Fits(f) && y.coef > 0
  }

  /** The magnitudes of x and y, both in units of the smaller exponent. */
  function LeftUnits(x: DecFloat, y: DecFloat): nat
    requires x.Finite? && y.Finite?
  {
    Numer(x.coef, x.exp - y.exp)
  }

  function RightUnits(x: DecFloat, y: DecFloat): (u: nat)
    requires x.Finite? && y.Finite?
    ensures y.coef > 0 ==> u > 0
  {
    if y.coef > 0 then DenomPositive(y.coef, x.exp - y.exp); Denom(y.coef, x.exp - y.exp)
    else Denom(y.coef, x.exp - y.exp)
  }

  /** x/y truncated to an integer, or rounded to the nearest one with ties to even. */
  function IntQuotient(near: bool, x: DecFloat, y: DecFloat): nat
    requires x.Finite? && y.Finite? && y.coef > 0
  {
    IntegerOf(near, LeftUnits(x, y), RightUnits(x, y))
  }

  /** x - n*y for the integer quotient n; a zero keeps the sign of x. */
  function RemainderOf(near: bool, x: DecFloat, y: DecFloat): DecFloat
    requires x.Finite? && y.Finite? && y.coef > 0
  {
    var s := LeftUnits(x, y) - IntQuotient(near, x, y) * RightUnits(x, y);
    Finite(if s < 0 then !x.neg else x.neg, Magnitude(s), Min(x.exp, y.exp))
  }

  /** Truncated quotient: the remainder is smaller than y and has the sign of x.
      Nearest quotient: the remainder is at most half of y. */
  lemma RemainderBounds(near: bool, N: nat, D: nat, n: nat)
    requires D > 0 && n == IntegerOf(near, N, D)
    ensures var s := N - n * D;
      && (!near ==> 0 <= s < D)
      && (near ==> 2 * Magnitude(s) <= D)
      && Magnitude(s) <= N && n * D <= 2 * N
  {
    var q, r := N / D, N % D;
    DivModFact(N, D);
    if near && n == q + 1 {
      assert (q + 1) * D == q * D + D;
    }
  }

  /** The remainder always fits the format's precision. */
  lemma RemainderFits(f: Format, near: bool, x: DecFloat, y: DecFloat)
    requires Divisible(f, x, y)
    ensures RemainderOf(near, x, y).Fits(f)
  {
    var N, D := LeftUnits(x, y), RightUnits(x, y);
    RemainderBounds(near, N, D, IntQuotient(near, x, y));
    hide Pow10, IntegerOf;
  }

  lemma PositiveMultiple(g: int, k: int, p: nat)
    requires g == k * p && g > 0
    ensures g >= p
  {
    if k <= 0 { MulLe(k, 0, p); } else { MulLe(1, k, p); }
  }

  /** How far N falls short of 10^P*D is a multiple of 10^e or of 10^P. */
  lemma ShortfallMultiple(c: nat, D: nat, e: nat, P: nat, g: int)
    requires g == Pow10(P) * D - c * Pow10(e) && g > 0
    ensures g >= Pow10(if e <= P then e else P)
  {
    hide Pow10;
    if e <= P {
      Pow10Add(e, P - e);
      Factored(Pow10(e), Pow10(P - e), D, c);
      PositiveMultiple(g, Pow10(P - e) * D - c, Pow10(e));
    } else {
      Pow10Add(P, e - P);
      Factored'(Pow10(P), Pow10(e - P), D, c);
      PositiveMultiple(g, D - c * Pow10(e - P), Pow10(P));
    }
  }

  lemma Factored(a: nat, b: nat, D: nat, c: nat)
    ensures a * b * D - c * a == (b * D - c) * a
  {
    assert (b * D - c) * a == b * D * a - c * a;
    assert b * D * a == a * b * D;
  }

  lemma Factored'(a: nat, b: nat, D: nat, c: nat)
    ensures a * D - c * (a * b) == (D - c * b) * a
  {
    assert (D - c * b) * a == D * a - c * b * a;
    assert c * b * a == c * (a * b);
  }

  /** A quotient one below p leaves the dividend short of p*D by less than D. */
  lemma OneBelow(N: nat, D: nat, p: nat)
    requires D > 0 && N / D + 1 == p
    ensures p * D - N == D - N % D > 0
  {
    DivModFact(N, D);
    assert p * D == (N / D) * D + D;
  }

  /** Rounding to nearest never carries the integer quotient past the precision. */
  lemma NearFits(f: Format, x: DecFloat, y: DecFloat)
    requires Divisible(f, x, y) && IntQuotient(false, x, y) < Pow10(f.pmax)
    ensures IntQuotient(true, x, y) < Pow10(f.pmax)
  {
    var N, D, P, e := LeftUnits(x, y), RightUnits(x, y), f.pmax, x.exp - y.exp;
    var q, r := N / D, N % D;
    assert IntQuotient(true, x, y) == if r != 0 && Away(HalfEven, false, q, r, D) then q + 1 else q;
    assert e >= 0 ==> N == x.coef * Pow10(e) && D == y.coef;
    assert e < 0 ==> N == x.coef;
    assert r != 0 && Away(HalfEven, false, q, r, D) ==> 2 * r >= D;
    assert x.coef < Pow10(P) && Pow10(P) >= 2 && y.coef < Pow10(P);
    hide *;
    if q + 1 == Pow10(P) {
      OneBelow(N, D, Pow10(P));
      if e >= 0 {
        FarShort(x.coef, D, e, P, D - r);
      } else {
        SmallDividend(N, D, Pow10(P), D - r);
      }
      assert 2 * r < D;
    }
  }

  /** A dividend below p falls short of p*D by more than half of D. */
  lemma SmallDividend(N: nat, D: nat, p: nat, g: int)
    requires N < p && D > 0 && 0 < g == p * D - N && p >= 2
    ensures 2 * g > D
  {
    if D >= 2 {
      MulLe(2, D, p);
      MulLe(2, p, D);
    }
  }

  /** So does one with a positive exponent. */
  lemma FarShort(c: nat, D: nat, e: nat, P: nat, g: int)
    requires c < Pow10(P) && 0 < D < Pow10(P) && 0 < g == Pow10(P) * D - c * Pow10(e)
    ensures 2 * g > D
  {
    hide Pow10;
    ShortfallMultiple(c, D, e, P, g);
    if e <= P && 2 * Pow10(e) <= D {
      Pow10Add(P, e);
      MulLt(c, Pow10(P), Pow10(e));
      MulLe(2 * Pow10(e), D, Pow10(P));
      MuchTooShort(Pow10(P), Pow10(e), D, c * Pow10(e), g);
    }
  }

  lemma MuchTooShort(p: nat, q: nat, D: nat, N: nat, g: int)
    requires q >= 1 && N < p * q && 2 * q * p <= D * p && g == p * D - N && D < p
    ensures 2 * g > D
  {
    assert 2 * q * p == 2 * (p * q);
    MulLe(1, q, p);
  }

  // ---- the final multiply-add ----

  /** The quotient as the code hands it to the multiply-add: negated. */
  function NegatedQuotient(near: bool, x: DecFloat, y: DecFloat): DecFloat
    requires x.Finite? && y.Finite? && y.coef > 0
  {
    Finite(x.neg == y.neg, IntQuotient(near, x, y), 0)
  }

  lemma ProductScaled(n: nat, c: nat, k: nat)
    ensures n * c * Pow10(k) == n * (c * Pow10(k))
  {
    MulAssoc(n, c, Pow10(k));
  }

  /** The product of quotient and divisor is about as long as the dividend, so the guard
      of the multiply-add that would misround never fires. */
  lemma NoOverlap(f: Format, near: bool, x: DecFloat, y: DecFloat)
    requires Divisible(f, x, y)
    ensures !Overlaps(f, NegatedQuotient(near, x, y), y, x)
  {
    var n, p := IntQuotient(near, x, y), y.exp - x.exp;
    var a, b := Product(NegatedQuotient(near, x, y), y), Addend(x);
    RemainderBounds(near, LeftUnits(x, y), RightUnits(x, y), n);
    if p > 0 && a.coef > 0 {
      ProductScaled(n, y.coef, p);
      assert a.coef * Pow10(p) <= 2 * x.coef;
      hide Pow10, NumDigits, IntegerOf;
      Pow10Add(NumDigits(a.coef) - 1, p);
      MulLe(Pow10(NumDigits(a.coef) - 1), a.coef, Pow10(p));
      Doubled(NumDigits(a.coef) - 1 + p, x.coef);
    }
  }

  lemma Doubled(k: nat, c: nat)
    requires Pow10(k) <= 2 * c
    ensures k <= NumDigits(c)
  {
    var n := NumDigits(c);
    assert Pow10(n + 1) == 10 * Pow10(n) && c < Pow10(n);
    hide Pow10, NumDigits;
    if k > n {
      Pow10Monotone(n + 1, k);
    }
  }

  /** The multiply-add computes the remainder exactly. */
  lemma RemainderSum(f: Format, m: Mode, near: bool, x: DecFloat, y: DecFloat)
    requires Divisible(f, x, y)
    ensures var r := RemainderOf(near, x, y);
      ExactSum(f, m, Product(NegatedQuotient(near, x, y), y), Addend(x)) ==
      ExactOf(f, if r.coef == 0 then m.Floor? else r.neg, r.coef, 1, r.exp)
  {
    var n, e := IntQuotient(near, x, y), Min(x.exp, y.exp);
    var a, b := Product(NegatedQuotient(near, x, y), y), Addend(x);
    ProductScaled(n, y.coef, y.exp - e);
    assert Pow10(0) == 1;
    assert At(a, e) == n * RightUnits(x, y);
    assert At(b, e) == LeftUnits(x, y);
    hide Pow10, IntegerOf, ExactOf, Numer, Denom, At;
    MulLe(0, n, RightUnits(x, y));
    SignedSum(x.neg, n * RightUnits(x, y), LeftUnits(x, y));
  }

  lemma SignedSum(neg: bool, a: nat, b: nat)
    ensures Signed(!neg, a) + Signed(neg, b) == if neg then a - b else b - a
  {
  }
}
