/** When decFloatFMA may replace the lower operand by a single digit. */
module FmaShorten {
  import opened Powers
  import opened Formats
  import opened Rounding
  import opened Integers
  import opened StandIns
  import opened QuotientLayout
  import opened Sums
  import opened FmaSum

  /** n at exponent e, as a fraction at exponent q. */
  function NumAt(n: nat, e: int, q: int): nat {
    if q >= e then n else n * Pow10(e - q)
  }

  function DenAt(e: int, q: int): (d: nat)
    ensures d > 0
  {
    if q >= e then Pow10(q - e) else 1
  }

  /** The fraction at exponent q rounds as n at exponent e does. */
  lemma MoveExponent(f: Format, m: Mode, neg: bool, n: nat, e: int, q: int, r: DecFloat, s0: set<Flag>, s1: set<Flag>)
    requires f.Valid()
    requires Rounded(f, m, ExactOf(f, neg, NumAt(n, e, q), DenAt(e, q), q).(ideal := e - f.Qtiny()), r, s0, s1)
    ensures Rounded(f, m, ExactOf(f, neg, n, 1, e), r, s0, s1)
  {
    hide Rounded, ExactOf;
    ExactForm(f, neg, n, 1, e);
    if q >= e {
      assert 1 * Pow10(q - e) == Pow10(q - e);
      assert e + (q - e) == q;
      RespellDown(f, m, neg, n, 1, e, q - e, e - f.Qtiny(), r, s0, s1);
    } else {
      assert e - (e - q) == q;
      Respell(f, m, neg, n, 1, e, e - q, e - f.Qtiny(), r, s0, s1);
    }
  }

  /** Once digits are dropped, the exponent an exact result would prefer no longer matters. */
  lemma IdealAnywhere(f: Format, m: Mode, neg: bool, c: nat, e: int, i: int, r: DecFloat, s0: set<Flag>, s1: set<Flag>)
    requires f.Valid() && Drop(f, NumDigits(c), e) > 0 && i <= e + Drop(f, NumDigits(c), e) - f.Qtiny()
    requires Rounded(f, m, ExactOf(f, neg, c, 1, e), r, s0, s1)
    ensures Rounded(f, m, ExactOf(f, neg, c, 1, e).(ideal := i), r, s0, s1)
  {
    hide Finish, ExactOf, NumDigits, Pow10, Quantum;
    var x := ExactOf(f, neg, c, 1, e);
    var y := x.(ideal := i);
    var j: nat :| Quantum(f, x, j) && r == Finish(f, m, x, j).df && s1 == s0 + Finish(f, m, x, j).flags;
    ExactForm(f, neg, c, 1, e);
    DigitsReach(c);
    DropIsQuantum(f, neg, c, e, NumDigits(c));
    QuantumUnique(f, x, j, e + Drop(f, NumDigits(c), e) - f.Qtiny());
    AnotherIdeal(f, m, x, i, j);
  }

  lemma AnotherIdeal(f: Format, m: Mode, x: Exact, i: int, j: nat)
    requires f.Valid() && x.den > 0 && Quantum(f, x, j) && j > x.ideal && j >= i
    ensures Quantum(f, x.(ideal := i), j) && Finish(f, m, x.(ideal := i), j) == Finish(f, m, x, j)
  {
    hide Pow10, RoundInt, Clamp;
  }

  /** The exponent the code gives the single digit. */
  function NewExp(f: Format, e: int, hilen: nat): int {
    Min(e, e + hilen - f.pmax) - 3
  }

  /** The guard at which the code shortens the lower operand. */
  predicate Shortens(f: Format, a: Term, b: Term)
    requires a.exp >= b.exp
  {
    a.exp > b.exp && NumDigits(a.coef) + (a.exp - b.exp) - NumDigits(b.coef) > f.pmax + 2
  }

  /** The lower operand lies wholly to the right of the higher one's last digit. */
  predicate Clear(a: Term, b: Term)
    requires a.exp >= b.exp
  {
    a.exp - b.exp >= NumDigits(b.coef)
  }

  /** The width of the cell both sums stay inside. */
  lemma CellWidth(f: Format, a: Term, b: Term) returns (w: nat)
    requires a.exp >= b.exp && a.coef > 0 && Shortens(f, a, b) && Clear(a, b)
    ensures var q := NewExp(f, a.exp, NumDigits(a.coef));
      && 1 <= w <= a.exp - q && NumDigits(b.coef) <= w + (q - b.exp)
      && NumDigits(a.coef) + (a.exp - q) - 1 - f.pmax >= w + 1
  {
    var q, hilen, lolen := NewExp(f, a.exp, NumDigits(a.coef)), NumDigits(a.coef), NumDigits(b.coef);
    w := Max(1, lolen - (q - b.exp));
  }

  lemma LowInCell(b: nat, e: int, q: int, w: nat)
    requires 0 < b && NumDigits(b) <= w + (q - e)
    ensures 0 < NumAt(b, e, q) < Pow10(w) * DenAt(e, q)
  {
    if q >= e {
      Pow10Add(w, q - e);
      Pow10Monotone(NumDigits(b), w + (q - e));
    } else {
      Pow10Add(NumDigits(b), e - q);
      Pow10Monotone(NumDigits(b) + (e - q), w);
      MulLt(b, Pow10(NumDigits(b)), Pow10(e - q));
      MulLt(0, b, Pow10(e - q));
    }
  }

  /** The higher operand's coefficient at q, as a number of cells. */
  lemma HighCells(a: nat, g: nat, w: nat) returns (K: nat)
    requires w <= g
    ensures a * Pow10(g) == K * Pow10(w)
  {
    Pow10Add(g - w, w);
    K := a * Pow10(g - w);
    MulAssoc(a, Pow10(g - w), Pow10(w));
  }

  lemma CellOfSum(N: nat, D: nat, K: nat, W: nat, l: nat, d: nat, c: nat)
    requires D > 0 && 0 < l < W * D && 0 < d < W && N == K * W * D + l && c == K * W + d
    ensures ShareCell(N, D, c, K, W)
  {
    assert (K + 1) * W * D == K * W * D + W * D by { assert (K + 1) * W == K * W + W; }
  }

  lemma CellOfDifference(N: nat, D: nat, K: nat, W: nat, l: nat, d: nat, c: nat)
    requires D > 0 && K > 0 && 0 < l < W * D && 0 < d < W && N == K * W * D - l && c == K * W - d
    ensures ShareCell(N, D, c, K - 1, W)
  {
    assert (K - 1) * W * D == K * W * D - W * D by { assert (K - 1) * W == K * W - W; }
    assert K - 1 + 1 == K;
  }

  /** The higher operand at q times the denominator is the higher operand at the lower exponent. */
  lemma HighMoved(a: nat, ea: int, e: int, q: int)
    requires e <= ea && q <= ea
    ensures NumAt(a * Pow10(ea - e), e, q) == a * Pow10(ea - q) * DenAt(e, q)
  {
    if q >= e {
      Pow10Add(ea - q, q - e);
      MulAssoc(a, Pow10(ea - q), Pow10(q - e));
    } else {
      Pow10Add(ea - e, e - q);
      MulAssoc(a, Pow10(ea - e), Pow10(e - q));
    }
  }

  /** Moving a sum or difference moves its terms. */
  lemma NumAtLinear(x: nat, y: nat, e: int, q: int)
    ensures NumAt(x + y, e, q) == NumAt(x, e, q) + NumAt(y, e, q)
  {
  }

  lemma EnoughLeft(f: Format, h: nat, g: nat, d: nat, c: nat, w: nat, q: int)
    requires h > 0 && g >= 1 && d <= 9 && c >= h * Pow10(g) - d && NumDigits(h) + g - 1 - f.pmax >= w + 1
    ensures Drop(f, NumDigits(c), q) >= w + 1
  {
    hide Pow10, NumDigits;
    HighPower(h, g);
    ManyDigits(c, NumDigits(h) + g - 1, h * Pow10(g), d);
  }

  lemma HighPower(h: nat, g: nat)
    requires h > 0
    ensures h * Pow10(g) >= Pow10(NumDigits(h) + g - 1)
  {
    hide Pow10, NumDigits;
    Pow10Add(NumDigits(h) - 1, g);
    MulLe(Pow10(NumDigits(h) - 1), h, Pow10(g));
  }

  /** Taking at most nine from a power of ten loses at most one digit. */
  lemma ManyDigits(c: nat, n: nat, v: int, d: nat)
    requires n >= 1 && v >= Pow10(n) && d <= 9 && c >= v - d
    ensures NumDigits(c) >= n
  {
    Pow10Grows(n - 1, n);
    DigitsAtLeast(c, n);
  }

  /** Magnitude and sign of the sum when the higher operand decides. */
  lemma HighDecides(m: Mode, a: Term, b: Term, e: int, l: nat, neg: bool, c: nat)
    requires e <= a.exp && l < At(a, e) && Sum(m, a.neg, At(a, e), b.neg, l, neg, c)
    ensures neg == a.neg && c == if a.neg == b.neg then At(a, e) + l else At(a, e) - l
  {
  }

  /** The exact sum, when the higher operand decides. */
  lemma ExactHigh(f: Format, m: Mode, a: Term, b: Term, E: nat)
    requires b.exp <= a.exp && b.coef < At(a, b.exp)
    requires E == if a.neg == b.neg then At(a, b.exp) + b.coef else At(a, b.exp) - b.coef
    ensures ExactSum(f, m, a, b) == ExactOf(f, a.neg, E, 1, b.exp)
  {
    assert At(b, b.exp) == b.coef;
  }

  /** The sum and its replacement share a cell. */
  lemma SumsShareCell(a: Term, b: Term, q: int, W: nat, d: nat, K: nat)
    requires b.exp <= a.exp && q <= a.exp && a.coef > 0 && b.coef > 0 && 0 < d < W && At(a, q) == K * W
    requires 0 < NumAt(b.coef, b.exp, q) < W * DenAt(b.exp, q)
    ensures K > 0 && d < At(a, q) && b.coef < At(a, b.exp)
    ensures a.neg == b.neg ==>
      ShareCell(NumAt(At(a, b.exp) + b.coef, b.exp, q), DenAt(b.exp, q), At(a, q) + d, K, W)
    ensures a.neg != b.neg ==>
      ShareCell(NumAt(At(a, b.exp) - b.coef, b.exp, q), DenAt(b.exp, q), At(a, q) - d, K - 1, W)
  {
    var e, D, l := b.exp, DenAt(b.exp, q), NumAt(b.coef, b.exp, q);
    MulLt(0, a.coef, Pow10(a.exp - q));
    HighMoved(a.coef, a.exp, e, q);
    hide NumAt, DenAt, ShareCell;
    KCells(K, W, D, d, l);
    HighAbove(At(a, e), b.coef, e, q);
    NumAtLinear(At(a, e), b.coef, e, q);
    if a.neg == b.neg {
      CellOfSum(NumAt(At(a, e) + b.coef, e, q), D, K, W, l, d, At(a, q) + d);
    } else {
      NumAtLinear(At(a, e) - b.coef, b.coef, e, q);
      CellOfDifference(NumAt(At(a, e) - b.coef, e, q), D, K, W, l, d, At(a, q) - d);
    }
  }

  lemma KCells(K: nat, W: nat, D: nat, d: nat, l: nat)
    requires 0 < K * W && d < W && l < W * D
    ensures K > 0 && d < K * W && l < K * W * D
  {
    assert 0 * W == 0;
    MulLe(1, K, W);
    MulLe(W, K * W, D);
  }

  lemma HighAbove(x: nat, y: nat, e: int, q: int)
    requires NumAt(y, e, q) < NumAt(x, e, q)
    ensures y < x
  {
    if x <= y {
      if q < e {
        MulLe(x, y, Pow10(e - q));
      }
    }
  }

  /** A lower operand, not zero, replaced by a digit in the same cell. */
  lemma ReplacedRounds(f: Format, m: Mode, a: Term, b: Term, q: int, d: nat, W: nat, h: nat, k: nat, K: nat,
                       neg: bool, c: nat, r: DecFloat, s0: set<Flag>, s1: set<Flag>)
    requires f.Valid() && b.exp <= a.exp && q <= a.exp && a.coef > 0 && b.coef > 0 && 0 < d < W && At(a, q) == K * W
    requires 0 < NumAt(b.coef, b.exp, q) < W * DenAt(b.exp, q) && h > 0 && 5 * Pow10(k) == h * W
    requires Sum(m, a.neg, At(a, q), b.neg, d, neg, c) && Drop(f, NumDigits(c), q) >= k + 1
    requires Rounded(f, m, ExactOf(f, neg, c, 1, q), r, s0, s1)
    ensures Rounded(f, m, ExactSum(f, m, a, b), r, s0, s1)
  {
    var e := b.exp;
    hide Rounded, ExactOf, ExactSum, NumDigits, Drop, ShareCell, NumAt, DenAt, Sum, Pow10;
    SumsShareCell(a, b, q, W, d, K);
    HighDecides(m, a, b, q, d, neg, c);
    var E := if a.neg == b.neg then At(a, e) + b.coef else At(a, e) - b.coef;
    ExactHigh(f, m, a, b, E);
    CellStandIn(f, m, neg, NumAt(E, e, q), DenAt(e, q), q, e - f.Qtiny(), c, if a.neg == b.neg then K else K - 1,
                W, h, k, r, s0, s1);
    MoveExponent(f, m, neg, E, e, q, r, s0, s1);
  }

  /** Shortened and clear of the higher operand: the replacement rounds as the sum does. */
  lemma ShortenedRounds(f: Format, m: Mode, a: Term, b: Term, d: nat, neg: bool, c: nat, r: DecFloat, s0: set<Flag>, s1: set<Flag>)
    requires f.Valid() && b.exp <= a.exp && a.coef > 0 && Shortens(f, a, b) && Clear(a, b)
    requires d <= 9 && (d == 0 <==> b.coef == 0)
    requires var q := NewExp(f, a.exp, NumDigits(a.coef));
      Sum(m, a.neg, At(a, q), b.neg, d, neg, c) && Rounded(f, m, ExactOf(f, neg, c, 1, q), r, s0, s1)
    ensures Rounded(f, m, ExactSum(f, m, a, b), r, s0, s1)
  {
    var q := NewExp(f, a.exp, NumDigits(a.coef));
    var w := CellWidth(f, a, b);
    var K := HighCells(a.coef, a.exp - q, w);
    Pow10Grows(0, w);
    MulLt(0, a.coef, Pow10(a.exp - q));
    hide Rounded, ExactOf, ExactSum, NumDigits, Drop, NumAt, DenAt, Sum, Pow10;
    if b.coef == 0 {
      ShortenedZero(f, m, a, b, neg, c, w, r, s0, s1);
    } else {
      LowInCell(b.coef, b.exp, q, w);
      KCells(K, Pow10(w), 1, d, d);
      HighDecides(m, a, b, q, d, neg, c);
      EnoughLeft(f, a.coef, a.exp - q, d, c, w, q);
      ReplacedRounds(f, m, a, b, q, d, Pow10(w), 5, w, K, neg, c, r, s0, s1);
    }
  }

  /** Adding a zero far to the right. */
  lemma ReplacedZero(f: Format, m: Mode, a: Term, b: Term, q: int, neg: bool, c: nat, r: DecFloat, s0: set<Flag>, s1: set<Flag>)
    requires f.Valid() && b.exp <= a.exp && q <= a.exp && a.coef > 0 && b.coef == 0
    requires Sum(m, a.neg, At(a, q), b.neg, 0, neg, c) && Drop(f, NumDigits(c), q) > 0 && b.exp <= q + Drop(f, NumDigits(c), q)
    requires Rounded(f, m, ExactOf(f, neg, c, 1, q), r, s0, s1)
    ensures Rounded(f, m, ExactSum(f, m, a, b), r, s0, s1)
  {
    var e := b.exp;
    MulLt(0, a.coef, Pow10(a.exp - q));
    MulLt(0, a.coef, Pow10(a.exp - e));
    assert At(a, q) > 0 && At(a, e) > 0;
    HighMoved(a.coef, a.exp, e, q);
    hide Rounded, ExactOf, ExactSum, NumDigits, NumAt, DenAt, Pow10, Sum, Drop;
    HighDecides(m, a, b, q, 0, neg, c);
    IdealAnywhere(f, m, neg, c, q, e - f.Qtiny(), r, s0, s1);
    ExactHigh(f, m, a, b, At(a, e));
    SameFraction(f, m, neg, NumAt(At(a, e), e, q), DenAt(e, q), c, q, e - f.Qtiny(), r, s0, s1);
    MoveExponent(f, m, neg, At(a, e), e, q, r, s0, s1);
  }

  lemma ShortenedZero(f: Format, m: Mode, a: Term, b: Term, neg: bool, c: nat, w: nat, r: DecFloat, s0: set<Flag>, s1: set<Flag>)
    requires f.Valid() && b.exp < a.exp && a.coef > 0 && b.coef == 0
    requires var q := NewExp(f, a.exp, NumDigits(a.coef));
      && 1 <= w <= a.exp - q && NumDigits(b.coef) <= w + (q - b.exp)
      && NumDigits(a.coef) + (a.exp - q) - 1 - f.pmax >= w + 1
      && Sum(m, a.neg, At(a, q), b.neg, 0, neg, c) && Rounded(f, m, ExactOf(f, neg, c, 1, q), r, s0, s1)
    ensures Rounded(f, m, ExactSum(f, m, a, b), r, s0, s1)
  {
    var q := NewExp(f, a.exp, NumDigits(a.coef));
    MulLt(0, a.coef, Pow10(a.exp - q));
    hide Rounded, ExactOf, ExactSum, NumDigits, Pow10, Sum;
    HighDecides(m, a, b, q, 0, neg, c);
    EnoughLeft(f, a.coef, a.exp - q, 0, c, w, q);
    ReplacedZero(f, m, a, b, q, neg, c, r, s0, s1);
  }
}
