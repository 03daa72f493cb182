/** The forms in which callers replace an exact value by a nearby integer coefficient. */
module StandIns {
  import opened Powers
  import opened Formats
  import opened Rounding
  import opened Sticky
  import opened Integers

  /** Equal fractions with the same ideal exponent round alike. */
  lemma RoundedCross(f: Format, m: Mode, x: Exact, y: Exact, r: DecFloat, s0: set<Flag>, s1: set<Flag>)
    requires f.Valid() && x.den > 0 && y.den > 0 && x.neg == y.neg && x.ideal == y.ideal
    requires x.num * y.den == y.num * x.den
    requires Rounded(f, m, y, r, s0, s1)
    ensures Rounded(f, m, x, r, s0, s1)
  {
    hide Rounded;
    RoundedScale(f, m, x, y.den, r, s0, s1);
    RoundedScale(f, m, y, x.den, r, s0, s1);
    assert Scaled(x, y.den) == Scaled(y, x.den);
  }

  /** How ExactOf spreads its exponent over numerator and denominator. */
  function NumScale(f: Format, e: int): (t: nat)
    ensures t > 0
  {
    if e >= f.Qtiny() then Pow10(e - f.Qtiny()) else 1
  }

  function DenScale(f: Format, e: int): (t: nat)
    ensures t > 0
  {
    if e >= f.Qtiny() then 1 else Pow10(f.Qtiny() - e)
  }

  lemma ExactForm(f: Format, neg: bool, n: nat, d: nat, e: int)
    requires d > 0
    ensures ExactOf(f, neg, n, d, e) == Exact(neg, n * NumScale(f, e), d * DenScale(f, e), e - f.Qtiny())
  {
  }

  /** Moving s places between coefficient and exponent leaves the fraction as it was. */
  lemma ScaleShift(f: Format, e: int, s: nat)
    ensures NumScale(f, e) * DenScale(f, e - s) == Pow10(s) * NumScale(f, e - s) * DenScale(f, e)
  {
    hide Pow10;
    var u := f.Qtiny();
    if e - s >= u {
      Pow10Add(s, e - s - u);
    } else if e >= u {
      Pow10Add(e - u, u - (e - s));
    } else {
      Pow10Add(s, u - e);
    }
  }

  lemma CrossShift(n: nat, d: nat, a: nat, b: nat, c: nat, g: nat, p: nat)
    requires a * b == p * c * g
    ensures (n * a) * (d * b) == (n * p * c) * (d * g)
  {
    calc {
      (n * a) * (d * b);
      { MulAssoc(n * a, d, b); MulAssoc(n, a, d); }
      n * (a * d) * b;
      { Swap(a, d, 1); MulAssoc(n, d, a); }
      n * d * a * b;
      { MulAssoc(n * d, a, b); }
      n * d * (p * c * g);
      { MulAssoc(n * d, p * c, g); MulAssoc(n * d, p, c); }
      n * d * p * c * g;
      { Swap(n, d, p); Swap(n * p, d, c); }
      n * p * c * d * g;
      { MulAssoc(n * p * c, d, g); }
      (n * p * c) * (d * g);
    }
  }

  /** n/d*10^e, written as n*10^s/d*10^(e-s). */
  lemma Respell(f: Format, m: Mode, neg: bool, n: nat, d: nat, e: int, s: nat, i: int, r: DecFloat, s0: set<Flag>, s1: set<Flag>)
    requires f.Valid() && d > 0
    requires Rounded(f, m, ExactOf(f, neg, n * Pow10(s), d, e - s).(ideal := i), r, s0, s1)
    ensures Rounded(f, m, ExactOf(f, neg, n, d, e).(ideal := i), r, s0, s1)
  {
    hide Rounded;
    ExactForm(f, neg, n, d, e);
    ExactForm(f, neg, n * Pow10(s), d, e - s);
    ScaleShift(f, e, s);
    CrossShift(n, d, NumScale(f, e), DenScale(f, e - s), NumScale(f, e - s), DenScale(f, e), Pow10(s));
    RoundedCross(f, m, ExactOf(f, neg, n, d, e).(ideal := i), ExactOf(f, neg, n * Pow10(s), d, e - s).(ideal := i), r, s0, s1);
  }

  /** n/(d*10^s)*10^(e+s), written as n/d*10^e. */
  lemma RespellDown(f: Format, m: Mode, neg: bool, n: nat, d: nat, e: int, s: nat, i: int, r: DecFloat, s0: set<Flag>, s1: set<Flag>)
    requires f.Valid() && d > 0 && d * Pow10(s) > 0
    requires Rounded(f, m, ExactOf(f, neg, n, d * Pow10(s), e + s).(ideal := i), r, s0, s1)
    ensures Rounded(f, m, ExactOf(f, neg, n, d, e).(ideal := i), r, s0, s1)
  {
    hide Rounded;
    ExactForm(f, neg, n, d, e);
    ExactForm(f, neg, n, d * Pow10(s), e + s);
    ScaleShift(f, e + s, s);
    CrossShift(n, d, NumScale(f, e + s), DenScale(f, e), NumScale(f, e), DenScale(f, e + s), Pow10(s));
    CrossDown(n, d, Pow10(s), NumScale(f, e), DenScale(f, e + s), NumScale(f, e + s), DenScale(f, e));
    RoundedCross(f, m, ExactOf(f, neg, n, d, e).(ideal := i), ExactOf(f, neg, n, d * Pow10(s), e + s).(ideal := i), r, s0, s1);
  }

  lemma CrossDown(n: nat, d: nat, p: nat, c: nat, g: nat, a: nat, b: nat)
    requires (n * a) * (d * b) == (n * p * c) * (d * g)
    ensures (n * c) * (d * p * g) == (n * a) * (d * b)
  {
    calc {
      (n * p * c) * (d * g);
      { Swap(n, p, c); MulAssoc(n * c, p, d * g); }
      n * c * (p * (d * g));
      { MulAssoc(p, d, g); }
      n * c * (d * p * g);
    }
  }

  // ---- replacing a value by an integer in the same cell ----

  /** N/D and the integer M lie strictly inside the same cell of width W, counted at one exponent. */
  predicate ShareCell(N: nat, D: nat, M: nat, k: nat, W: nat) {
    k * W * D < N < (k + 1) * W * D && k * W < M < (k + 1) * W
  }

  lemma CellScales(N: nat, D: nat, M: nat, k: nat, W: nat, T: nat)
    requires D > 0 && T > 0 && W > 0 && ShareCell(N, D, M, k, W)
    ensures W * D * T > 0 && Inside(N * T, k, W * D * T) && Inside(M * T * D, k, W * D * T)
  {
    MulLt(0, W, D);
    MulLt(0, W * D, T);
    CellEdge(k, W, D, T);
    CellEdge(k + 1, W, D, T);
    MulLt(k * W * D, N, T);
    MulLt(N, (k + 1) * W * D, T);
    MulLt(k * W, M, D);
    MulLt(M, (k + 1) * W, D);
    MulLt(k * W * D, M * D, T);
    MulLt(M * D, (k + 1) * W * D, T);
    Swap(M, T, D);
  }

  lemma CellEdge(k: nat, W: nat, D: nat, T: nat)
    ensures k * (W * D * T) == k * W * D * T
  {
    MulAssoc(k, W * D, T);
    MulAssoc(k, W, D);
  }

  /** Half a unit at the rounding exponent is a whole number of cells. */
  lemma CellDivides(f: Format, e: int, D: nat, W: nat, h: nat, b: nat) returns (j0: nat, h0: nat)
    requires W > 0 && h > 0 && D > 0 && 5 * Pow10(b) == h * W
    ensures h0 > 0 && D * DenScale(f, e) * Pow10(j0) == 2 * h0 * (W * D * NumScale(f, e))
    ensures j0 == Max(0, e + b + 1 - f.Qtiny())
  {
    var u := f.Qtiny();
    assert Pow10(b + 1) == 2 * h * W by { MulAssoc(2, h, W); }
    if e >= u {
      j0, h0 := e + b + 1 - u, h;
      Pow10Add(b + 1, e - u);
      Factor(D, h, W, Pow10(e - u));
    } else {
      j0 := Max(0, e + b + 1 - u);
      var g := u - e + j0 - (b + 1);
      h0 := h * Pow10(g);
      MulLt(0, h, Pow10(g));
      Pow10Add(u - e, j0);
      Pow10Add(b + 1, g);
      MulAssoc(D, Pow10(u - e), Pow10(j0));
      Factor(D, h, W, Pow10(g));
      FactorMoved(D, h, W, Pow10(g));
    }
  }

  lemma Factor(D: nat, h: nat, W: nat, p: nat)
    ensures D * (2 * h * W * p) == 2 * h * (W * D * p)
  {
    calc {
      D * (2 * h * W * p);
      { MulAssoc(2 * h, W, p); MulAssoc(D, 2 * h, W * p); }
      D * (2 * h) * (W * p);
      { MulAssoc(2 * h, D, W * p); }
      2 * h * (D * (W * p));
      { MulAssoc(D, W, p); }
      2 * h * (W * D * p);
    }
  }

  lemma FactorMoved(D: nat, h: nat, W: nat, p: nat)
    ensures 2 * h * (W * D * p) == 2 * (h * p) * (W * D * 1)
  {
    calc {
      2 * h * (W * D * p);
      { MulAssoc(2 * h, W * D, p); Swap(2 * h, W * D, p); }
      2 * h * p * (W * D);
      { MulAssoc(2, h, p); }
      2 * (h * p) * (W * D * 1);
    }
  }

  /** M at exponent e may stand in for N/D at exponent e when they share a cell and at least
      b+1 digits of M are dropped; the exponents they would prefer play no part. */
  lemma CellStandIn(f: Format, m: Mode, neg: bool, N: nat, D: nat, e: int, i: int, M: nat,
                    k: nat, W: nat, h: nat, b: nat, r: DecFloat, s0: set<Flag>, s1: set<Flag>)
    requires f.Valid() && D > 0 && W > 0 && h > 0 && 5 * Pow10(b) == h * W
    requires ShareCell(N, D, M, k, W)
    requires Drop(f, NumDigits(M), e) >= b + 1
    requires Rounded(f, m, ExactOf(f, neg, M, 1, e), r, s0, s1)
    ensures Rounded(f, m, ExactOf(f, neg, N, D, e).(ideal := i), r, s0, s1)
  {
    hide Rounded, ShareCell, Drop, NumScale, DenScale, ExactOf, Quantum;
    var x, y := ExactOf(f, neg, N, D, e).(ideal := i), Scaled(ExactOf(f, neg, M, 1, e), D);
    ExactForm(f, neg, N, D, e);
    ExactForm(f, neg, M, 1, e);
    CellScales(N, D, M, k, W, NumScale(f, e));
    var j0, h0 := CellDivides(f, e, D, W, h, b);
    RoundedScale(f, m, ExactOf(f, neg, M, 1, e), D, r, s0, s1);
    QuantumAbove(f, neg, M, e, D, b);
    StandIn(f, m, x, y, k, W * D * NumScale(f, e), h0, j0, r, s0, s1);
  }

  lemma QuantumAbove(f: Format, neg: bool, M: nat, e: int, D: nat, b: nat)
    requires f.Valid() && D > 0 && Drop(f, NumDigits(M), e) >= b + 1
    ensures var y := Scaled(ExactOf(f, neg, M, 1, e), D);
      y.den > 0 && forall j: nat :: Quantum(f, y, j) ==> Max(0, e + b + 1 - f.Qtiny()) <= j
  {
    var x := ExactOf(f, neg, M, 1, e);
    DropIsQuantum(f, neg, M, e, NumDigits(M));
    QuantumScale(f, x, D, e + Drop(f, NumDigits(M), e) - f.Qtiny());
    var y := Scaled(x, D);
    forall j: nat | Quantum(f, y, j)
      ensures Max(0, e + b + 1 - f.Qtiny()) <= j
    {
      QuantumUnique(f, y, j, e + Drop(f, NumDigits(M), e) - f.Qtiny());
    }
  }

  lemma StickyCell(N: nat, D: nat, Q: nat, M: nat)
    requires D > 0 && Q * D < N < (Q + 1) * D && M % 2 == 1 && (M == Q || M == Q + 1)
    ensures ShareCell(N, D, M, Q / 10, 10)
  {
    var k := Q / 10;
    MulLe(k * 10, Q, D);
    MulLe(Q + 1, (k + 1) * 10, D);
  }

  /** The truncated quotient with its low bit set stands in for the exact one, provided
      two digits beyond the precision are present. */
  lemma StickyBit(f: Format, m: Mode, neg: bool, N: nat, D: nat, e: int, i: int, Q: nat, M: nat,
                  r: DecFloat, s0: set<Flag>, s1: set<Flag>)
    requires f.Valid() && D > 0 && Q * D < N < (Q + 1) * D
    requires M % 2 == 1 && (M == Q || M == Q + 1)
    requires Q >= Pow10(f.pmax + 1)
    requires Rounded(f, m, ExactOf(f, neg, M, 1, e), r, s0, s1)
    ensures Rounded(f, m, ExactOf(f, neg, N, D, e).(ideal := i), r, s0, s1)
  {
    hide Rounded, Pow10, NumDigits, ExactOf, ShareCell;
    StickyCell(N, D, Q, M);
    if NumDigits(M) < f.pmax + 2 {
      Pow10Monotone(NumDigits(M), f.pmax + 1);
    }
    TimesOne(1);
    Pow10Next(0);
    CellStandIn(f, m, neg, N, D, e, i, M, Q / 10, 10, 5, 1, r, s0, s1);
  }
}
