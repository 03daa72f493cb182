/** Why a few guard digits are enough: values that no rounding boundary separates round alike. */
module Sticky {
  import opened Powers
  import opened Formats
  import opened Rounding

  // ---- a common factor of numerator and denominator is invisible ----

  lemma RoundIntScale(m: Mode, neg: bool, n: nat, d: int, t: int)
    requires d > 0 && t > 0
    ensures d * t > 0 && RoundInt(m, neg, n * t, d * t) == RoundInt(m, neg, n, d)
  {
    DivModScale(n, d, t);
    var r := n % d;
    MulLe(0, r, t);
    assert r * t == 0 <==> r == 0 by {
      if r > 0 { MulLt(0, r, t); }
    }
    assert 2 * (r * t) == 2 * r * t;
    if 2 * r > d { MulLt(d, 2 * r, t); } else if 2 * r < d { MulLt(2 * r, d, t); }
  }

  function Scaled(x: Exact, t: nat): Exact {
    Exact(x.neg, x.num * t, x.den * t, x.ideal)
  }

  lemma ScaleFacts(f: Format, m: Mode, x: Exact, t: int, j: nat)
    requires f.Valid() && x.den > 0 && t > 0
    ensures Scaled(x, t).den > 0
    ensures FitsAt(f, x, j) <==> FitsAt(f, Scaled(x, t), j)
    ensures IntegralAt(x, j) <==> IntegralAt(Scaled(x, t), j)
    ensures RoundFlags(f, x, j) == RoundFlags(f, Scaled(x, t), j)
    ensures Finish(f, m, x, j) == Finish(f, m, Scaled(x, t), j)
  {
    MulLt(0, x.den, t);
    MulLt(0, x.den, Pow10(j));
    LtScale(x.num, x.den, Pow10(f.pmax + j), t);
    LtScale(x.num, x.den, Pow10(f.pmax - 1), t);
    Swap(x.den, Pow10(j), t);
    DivModScale(x.num, x.den * Pow10(j), t);
    var r := x.num % (x.den * Pow10(j));
    assert r * t == 0 <==> r == 0 by {
      if r > 0 { MulLt(0, r, t); }
    }
    RoundIntScale(m, x.neg, x.num, x.den * Pow10(j), t);
  }

  lemma Swap(a: int, b: int, c: int)
    ensures a * b * c == a * c * b
  {
  }

  lemma LtScale(n: nat, d: nat, p: nat, t: int)
    requires t > 0
    ensures n < d * p <==> n * t < d * t * p
  {
    Swap(d, p, t);
    if n < d * p {
      MulLt(n, d * p, t);
    } else {
      MulLe(d * p, n, t);
    }
  }

  lemma QuantumScale(f: Format, x: Exact, t: int, j: nat)
    requires f.Valid() && x.den > 0 && t > 0
    ensures Scaled(x, t).den > 0
    ensures Quantum(f, x, j) <==> Quantum(f, Scaled(x, t), j)
  {
    ScaleFacts(f, Down, x, t, j);
    ScaleFacts(f, Down, x, t, j + 1);
    if j > 0 {
      ScaleFacts(f, Down, x, t, j - 1);
    }
  }

  /** Correct rounding depends on the value only, not on how the fraction is written. */
  lemma RoundedScale(f: Format, m: Mode, x: Exact, t: int, r: DecFloat, s0: set<Flag>, s1: set<Flag>)
    requires f.Valid() && x.den > 0 && t > 0
    ensures Scaled(x, t).den > 0
    ensures Rounded(f, m, x, r, s0, s1) <==> Rounded(f, m, Scaled(x, t), r, s0, s1)
  {
    MulLt(0, x.den, t);
    forall j: nat
      ensures Quantum(f, x, j) <==> Quantum(f, Scaled(x, t), j)
      ensures Finish(f, m, x, j) == Finish(f, m, Scaled(x, t), j)
    {
      QuantumScale(f, x, t, j);
      ScaleFacts(f, m, x, t, j);
    }
  }

  // ---- values inside the same cell of a grid ----

  /** n lies strictly between the neighbouring multiples k*w and (k+1)*w. */
  predicate Inside(n: int, k: int, w: int) {
    k * w < n < (k + 1) * w
  }

  /** A multiple of w is on the same side of every number inside the cell. */
  lemma InsideCompare(n: int, n': int, k: int, w: int, c: int)
    requires w > 0 && Inside(n, k, w) && Inside(n', k, w)
    ensures n < c * w <==> n' < c * w
    ensures n != c * w
  {
    if c <= k {
      MulLe(c, k, w);
    } else {
      MulLe(k + 1, c, w);
    }
  }

  /** When half of d is a whole number h of cells, the cell settles quotient, residue and side. */
  lemma InsideRounds(m: Mode, neg: bool, n: nat, n': nat, k: nat, w: nat, h: nat, d: nat)
    requires w > 0 && h > 0 && d == 2 * h * w && Inside(n, k, w) && Inside(n', k, w)
    ensures d > 0 && n % d != 0
    ensures RoundInt(m, neg, n, d) == RoundInt(m, neg, n', d)
  {
    var a, b := k / (2 * h), k % (2 * h);
    DivModFact(k, 2 * h);
    CellResidue(n, k, w, 2 * h, d, a, b);
    CellResidue(n', k, w, 2 * h, d, a, b);
    HalfSide(n % d, b, w, h, d);
    HalfSide(n' % d, b, w, h, d);
  }

  lemma HalfSide(r: nat, b: nat, w: nat, h: nat, d: nat)
    requires w > 0 && d == 2 * h * w && Inside(r, b, w)
    ensures 2 * r != d && (2 * r > d <==> b >= h)
  {
    assert d == 2 * (h * w) by { MulAssoc(2, h, w); }
    if b >= h {
      MulLe(h, b, w);
    } else {
      MulLe(b + 1, h, w);
    }
  }

  lemma CellResidue(n: nat, k: nat, w: nat, g: nat, d: nat, a: nat, b: nat)
    requires w > 0 && g > 0 && d == g * w && Inside(n, k, w) && k == a * g + b && 0 <= b < g
    ensures d > 0 && n / d == a && Inside(n % d, b, w) && n % d > 0
  {
    MulLt(0, g, w);
    assert k * w == a * d + b * w by {
      assert (a * g + b) * w == a * g * w + b * w;
      MulAssoc(a, g, w);
    }
    assert (k + 1) * w == a * d + (b + 1) * w by {
      assert (k + 1) * w == k * w + w && (b + 1) * w == b * w + w;
    }
    MulLe(b + 1, g, w);
    MulLe(0, b, w);
    DivModUnique(n, d, a, n - a * d);
  }

  /** Two values in the same cell, rounded where half a unit is a whole number of cells,
      give the same result and flags, whatever exponents they would have preferred. */
  lemma SameCell(f: Format, m: Mode, x: Exact, y: Exact, k: nat, w: nat, h: nat, j: nat)
    requires f.Valid() && x.den == y.den > 0 && x.neg == y.neg
    requires w > 0 && h > 0 && Inside(x.num, k, w) && Inside(y.num, k, w)
    requires x.den * Pow10(j) == 2 * h * w
    requires Quantum(f, y, j)
    ensures Quantum(f, x, j) && Finish(f, m, x, j) == Finish(f, m, y, j)
    ensures Inexact in RoundFlags(f, x, j)
  {
    var d := x.den;
    MulLt(0, d, Pow10(j));
    InsideRounds(m, x.neg, x.num, y.num, k, w, h, d * Pow10(j));
    InsideRounds(m, x.neg, y.num, x.num, k, w, h, d * Pow10(j));
    SameFits(f, x, y, k, w, h, j, j);
    if j > 0 {
      SameFits(f, x, y, k, w, h, j, j - 1);
    }
    if IntegralAt(x, j + 1) {
      IntegralShrinks(x, j, j + 1);
      assert false;
    }
    assert Quantum(f, x, j);
    SameTiny(f, x, y, k, w, h, j);
  }

  lemma SameFits(f: Format, x: Exact, y: Exact, k: nat, w: nat, h: nat, j: nat, i: nat)
    requires f.Valid() && x.den == y.den > 0
    requires w > 0 && Inside(x.num, k, w) && Inside(y.num, k, w)
    requires x.den * Pow10(j) == 2 * h * w && j - 1 <= i
    ensures FitsAt(f, x, i) <==> FitsAt(f, y, i)
  {
    Multiple(x.den, j, f.pmax + i, h, w);
    InsideCompare(x.num, y.num, k, w, Pow10(f.pmax + i - j) * (2 * h));
  }

  /** Both values are tiny, or neither is. */
  lemma SameTiny(f: Format, x: Exact, y: Exact, k: nat, w: nat, h: nat, j: nat)
    requires f.Valid() && x.den == y.den > 0
    requires w > 0 && Inside(x.num, k, w) && Inside(y.num, k, w)
    requires x.den * Pow10(j) == 2 * h * w
    requires j == 0 || (!FitsAt(f, x, j - 1) && !FitsAt(f, y, j - 1))
    ensures x.num < x.den * Pow10(f.pmax - 1) <==> y.num < y.den * Pow10(f.pmax - 1)
  {
    if j <= f.pmax - 1 {
      Multiple(x.den, j, f.pmax - 1, h, w);
      InsideCompare(x.num, y.num, k, w, Pow10(f.pmax - 1 - j) * (2 * h));
    } else {
      Pow10Monotone(f.pmax - 1, f.pmax + j - 1);
      MulLe(Pow10(f.pmax - 1), Pow10(f.pmax + j - 1), x.den);
    }
  }

  /** d*10^i is a whole number of cells from exponent j up. */
  lemma Multiple(d: nat, j: nat, i: nat, h: nat, w: nat)
    requires j <= i && d * Pow10(j) == 2 * h * w
    ensures d * Pow10(i) == Pow10(i - j) * (2 * h) * w
  {
    Pow10Split(j, i);
    calc {
      d * Pow10(i);
      d * (Pow10(j) * Pow10(i - j));
      { MulAssoc(d, Pow10(j), Pow10(i - j)); }
      2 * h * w * Pow10(i - j);
      { MulAssoc(Pow10(i - j), 2 * h, w); }
      Pow10(i - j) * (2 * h) * w;
    }
  }

  /** The form every caller uses: y stands in for x. */
  lemma StandIn(f: Format, m: Mode, x: Exact, y: Exact, k: nat, w: nat, h0: nat, j0: nat,
                r: DecFloat, s0: set<Flag>, s1: set<Flag>)
    requires f.Valid() && x.den == y.den > 0 && x.neg == y.neg
    requires w > 0 && h0 > 0 && Inside(x.num, k, w) && Inside(y.num, k, w)
    requires x.den * Pow10(j0) == 2 * h0 * w
    requires forall j: nat :: Quantum(f, y, j) ==> j0 <= j
    requires Rounded(f, m, y, r, s0, s1)
    ensures Rounded(f, m, x, r, s0, s1)
  {
    var j: nat :| Quantum(f, y, j) && r == Finish(f, m, y, j).df && s1 == s0 + Finish(f, m, y, j).flags;
    CoarserCell(x.den, j0, j, h0, w);
    SameCell(f, m, x, y, k, w, Pow10(j - j0) * h0, j);
  }

  lemma CoarserCell(d: nat, j0: nat, j: nat, h: nat, w: nat)
    requires j0 <= j && d * Pow10(j0) == 2 * h * w && h > 0
    ensures Pow10(j - j0) * h > 0
    ensures d * Pow10(j) == 2 * (Pow10(j - j0) * h) * w
  {
    Multiple(d, j0, j, h, w);
    MulLt(0, h, Pow10(j - j0));
    assert Pow10(j - j0) * (2 * h) == 2 * (Pow10(j - j0) * h);
  }
}
