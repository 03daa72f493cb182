/** The guard that shortens an addend also fires for long products the addend overlaps;
    in every compiled format there are operands whose result is then not correctly rounded. */
module FmaOverlap {
  import opened Powers
  import opened Formats
  import opened Rounding
  import opened Integers
  import opened Multiply
  import opened Sums
  import opened FmaShorten
  import opened Fma

  // The operands, with t = 10^(pmax-2): 24999...9 times 1000...01 plus 1.0. The product is
  // 25000...0014999...9, one below a tie.

  function Left(f: Format): DecFloat
    requires f.Valid()
  {
    Finite(false, 25 * Pow10(f.pmax - 2) - 1, 0)
  }

  function Right(f: Format): DecFloat
    requires f.Valid()
  {
    Finite(false, Pow10(f.pmax - 1) + 1, 0)
  }

  const ONE_POINT_ZERO := Finite(false, 10, -1)

  /** The exponents involved are well inside the format. */
  predicate Roomy(f: Format) {
    Compiled(f) && f.Qtiny() <= -3 && f.pmax <= f.Qmax()
  }

  lemma RoomyFormats()
    ensures Roomy(DOUBLE) && Roomy(QUAD)
  {
  }

  /** The product, with t = 10^(n-2) and s = t*t. */
  function Near(s: nat, t: nat): int {
    250 * s + 15 * t - 1
  }

  predicate IsSquare(t: nat, s: nat) {
    s == t * t
  }

  lemma Squared(t: nat, s: nat)
    requires t > 0 && IsSquare(t, s)
    ensures (25 * t - 1) * (10 * t + 1) == Near(s, t)
  {
  }

  lemma NearPowers(n: nat, t: nat) returns (s: nat)
    requires n >= 3 && t == Pow10(n - 2)
    ensures IsSquare(t, s) && s == Pow10(2 * n - 4) && s >= 10 * t && t % 10 == 0 && t >= 10
    ensures Pow10(n - 1) == 10 * t && Pow10(n) == 100 * t && Pow10(n + 2) == 10000 * t
    ensures Pow10(2 * n - 2) == 100 * s && Pow10(2 * n - 1) == 1000 * s && Pow10(2 * n) == 10000 * s
    ensures Pow10(2 * n + 1) == 100000 * s && Pow10(2 * n + 2) == 1000000 * s
  {
    s := t * t;
    Pow10Add(n - 2, n - 2);
    MulLe(10, t, t);
    assert Pow10(2 * n - 3) == 10 * s && Pow10(2 * n - 2) == 100 * s && Pow10(2 * n) == 10000 * s;
  }

  lemma SquareOf(n: nat, t: nat) returns (s: nat)
    requires n >= 3 && t == Pow10(n - 2)
    ensures IsSquare(t, s) && s == Pow10(2 * n - 4)
  {
    s := NearPowers(n, t);
  }

  lemma NearLengths(n: nat, t: nat, s: nat)
    requires n >= 3 && t >= 10 && s >= 10 * t
    requires Pow10(2 * n - 2) == 100 * s && Pow10(2 * n - 1) == 1000 * s && Pow10(2 * n) == 10000 * s
    requires Pow10(2 * n + 1) == 100000 * s && Pow10(2 * n + 2) == 1000000 * s
    ensures var p := Near(s, t);
      p > 0 && NumDigits(p) == 2 * n - 1 && NumDigits(10 * p + 10) == 2 * n && NumDigits(1000 * p + 1) == 2 * n + 2
  {
    hide Pow10, NumDigits;
    var p := Near(s, t);
    NumDigitsUnique(p, 2 * n - 1);
    NumDigitsUnique(10 * p + 10, 2 * n);
    NumDigitsUnique(1000 * p + 1, 2 * n + 2);
  }

  lemma Ten()
    ensures NumDigits(10) == 2 && Pow10(2) == 100 && Pow10(1) == 10 && Pow10(0) == 1 && Pow10(3) == 1000
  {
  }

  /** The addend of a whole unit is replaced by a thousandth. */
  lemma OverlapCase(f: Format, t: nat, s: nat)
    requires Roomy(f) && t == Pow10(f.pmax - 2) && IsSquare(t, s) && s == Pow10(2 * f.pmax - 4)
    ensures Left(f).Fits(f) && Right(f).Fits(f) && ONE_POINT_ZERO.Fits(f) && Overlaps(f, Left(f), Right(f), ONE_POINT_ZERO)
    ensures var a, b, p := Product(Left(f), Right(f)), Addend(ONE_POINT_ZERO), Near(s, t);
      && p > 0 && Replacement(f, a, b) == Term(false, 1, -3)
      && NumDigits(10 * p + 10) == 2 * f.pmax && NumDigits(1000 * p + 1) == 2 * f.pmax + 2
      && ExactSum(f, HalfEven, a, b) == ExactOf(f, false, 10 * p + 10, 1, -1)
      && ExactSum(f, HalfEven, a, Replacement(f, a, b)) == ExactOf(f, false, 1000 * p + 1, 1, -3)
  {
    var s' := NearPowers(f.pmax, t);
    var p := Near(s, t);
    NearLengths(f.pmax, t, s);
    Ten();
    SumsWritten(f, p);
    Factors(f, t, s);
    hide NumDigits, Pow10, ExactOf, ExactSum, Near, Left, Right, Product, IsSquare;
    assert Shortens(f, Term(false, p, 0), Term(false, 10, -1));
  }

  lemma Factors(f: Format, t: nat, s: nat)
    requires Roomy(f) && t == Pow10(f.pmax - 2) >= 10 && Pow10(f.pmax - 1) == 10 * t && Pow10(f.pmax) == 100 * t && IsSquare(t, s)
    ensures Left(f).Fits(f) && Right(f).Fits(f) && ONE_POINT_ZERO.Fits(f)
    ensures Near(s, t) > 0 && Product(Left(f), Right(f)) == Term(false, Near(s, t), 0)
  {
    hide Pow10;
    Squared(t, s);
    MulLe(10, t, t);
  }

  lemma SumsWritten(f: Format, p: nat)
    ensures ExactSum(f, HalfEven, Term(false, p, 0), Term(false, 10, -1)) == ExactOf(f, false, 10 * p + 10, 1, -1)
    ensures ExactSum(f, HalfEven, Term(false, p, 0), Term(false, 1, -3)) == ExactOf(f, false, 1000 * p + 1, 1, -3)
  {
    Ten();
    hide Pow10, ExactOf;
    assert SumOf(Term(false, p, 0), Term(false, 10, -1)) == 10 * p + 10;
    assert SumOf(Term(false, p, 0), Term(false, 1, -3)) == 1000 * p + 1;
  }

  predicate BelowTie(p: int, q: nat, t: nat) {
    p == q * (10 * t) + 5 * t - 1
  }

  lemma TieSpread(q: nat, t: nat)
    ensures q * (100 * t) == 10 * (q * (10 * t)) && q * (10000 * t) == 1000 * (q * (10 * t))
  {
  }

  /** The kept digits of the two sums differ: one is a tie going up, the other falls short of it. */
  lemma TieMissed(p: nat, q: nat, t: nat)
    requires t >= 10 && q % 2 == 1 && BelowTie(p, q, t)
    ensures RoundInt(HalfEven, false, 10 * p + 10, 100 * t) == q + 1
    ensures RoundInt(HalfEven, false, 1000 * p + 1, 10000 * t) == q
  {
    TieSpread(q, t);
    DivModUnique(10 * p + 10, 100 * t, q, 50 * t);
    DivModUnique(1000 * p + 1, 10000 * t, q, 5000 * t - 999);
  }

  lemma NearTie(t: nat, s: nat)
    requires t % 10 == 0 && IsSquare(t, s)
    ensures BelowTie(Near(s, t), 25 * t + 1, t) && (25 * t + 1) % 2 == 1
  {
  }

  lemma RoomyFacts(f: Format)
    requires Roomy(f)
    ensures f.Valid() && f.pmax - 1 <= f.Qmax()
  {
  }

  /** Rounding c at exponent pmax-1 keeps the rounded coefficient k. */
  lemma RoundsTo(f: Format, c: nat, e: int, len: nat, k: nat, r: DecFloat, s0: set<Flag>, s1: set<Flag>)
    requires Roomy(f) && NumDigits(c) == len && len - f.pmax + e == f.pmax - 1 && f.Qtiny() <= e <= 0 && f.pmax < len
    requires k == RoundInt(HalfEven, false, c, Pow10(len - f.pmax)) && 0 < k < Pow10(f.pmax)
    requires Rounded(f, HalfEven, ExactOf(f, false, c, 1, e), r, s0, s1)
    ensures r == Finite(false, k, f.pmax - 1)
  {
    hide Pow10, ExactOf, Quantum, RoundInt, NumDigits, Clamp, Roomy, Finish, IntegralAt, RoundFlags;
    RoomyFacts(f);
    DigitsReach(c);
    var x := ExactOf(f, false, c, 1, e);
    var j: nat :| Quantum(f, x, j) && r == Finish(f, HalfEven, x, j).df && s1 == s0 + Finish(f, HalfEven, x, j).flags;
    DropRounds(f, HalfEven, false, c, e, len);
    QuantumUnique(f, x, j, f.pmax - 1 - f.Qtiny());
    InRange(f, k, j, RoundFlags(f, x, j));
  }

  lemma InRange(f: Format, k: nat, j: nat, flags: set<Flag>)
    requires Roomy(f) && 0 < k < Pow10(f.pmax) && j <= f.Top()
    ensures Clamp(f, HalfEven, false, k, j, flags).df == Finite(false, k, f.Qtiny() + j)
  {
    hide Pow10;
    Pow10Add(f.pmax, j);
    MulLt(k, Pow10(f.pmax), Pow10(j));
    Pow10Monotone(f.pmax + j, f.pmax + f.Top());
  }

  /** Rounded coefficients of the two sums. */
  lemma KeptDigits(f: Format, t: nat, s: nat, p: nat)
    requires Roomy(f) && t == Pow10(f.pmax - 2) && IsSquare(t, s) && s == Pow10(2 * f.pmax - 4) && p == Near(s, t)
    ensures 25 * t + 2 < Pow10(f.pmax)
    ensures RoundInt(HalfEven, false, 10 * p + 10, Pow10(f.pmax)) == 25 * t + 2
    ensures RoundInt(HalfEven, false, 1000 * p + 1, Pow10(f.pmax + 2)) == 25 * t + 1
  {
    assert f.pmax >= 3;
    hide Pow10, RoundInt, IsSquare, Roomy, BelowTie, Near;
    var s' := NearPowers(f.pmax, t);
    NearTie(t, s);
    TieMissed(p, 25 * t + 1, t);
  }

  /** Two values of these lengths whose rounded coefficients differ do not round alike. */
  lemma Disagree(f: Format, x: nat, y: nat, k: nat, r: DecFloat, s0: set<Flag>, s1: set<Flag>)
    requires Roomy(f) && NumDigits(x) == 2 * f.pmax && NumDigits(y) == 2 * f.pmax + 2 && 0 < k && k + 1 < Pow10(f.pmax)
    requires RoundInt(HalfEven, false, x, Pow10(f.pmax)) == k + 1 && RoundInt(HalfEven, false, y, Pow10(f.pmax + 2)) == k
    requires Rounded(f, HalfEven, ExactOf(f, false, y, 1, -3), r, s0, s1)
    ensures !Rounded(f, HalfEven, ExactOf(f, false, x, 1, -1), r, s0, s1)
  {
    assert f.Qtiny() <= -3 && f.Valid();
    hide Roomy, Rounded, ExactOf, NumDigits, Pow10, RoundInt;
    RoundsTo(f, y, -3, 2 * f.pmax + 2, k, r, s0, s1);
    if Rounded(f, HalfEven, ExactOf(f, false, x, 1, -1), r, s0, s1) {
      RoundsTo(f, x, -1, 2 * f.pmax, k + 1, r, s0, s1);
    }
  }

  /** What the code returns for these operands is not the correctly rounded sum. */
  lemma OverlapMisrounds(f: Format, r: DecFloat, s0: set<Flag>, s1: set<Flag>)
    requires Roomy(f)
    requires var a, b := Product(Left(f), Right(f)), Addend(ONE_POINT_ZERO);
      Rounded(f, HalfEven, ExactSum(f, HalfEven, a, Replacement(f, a, b)), r, s0, s1)
    ensures Overlaps(f, Left(f), Right(f), ONE_POINT_ZERO)
    ensures !Rounded(f, HalfEven, ExactSum(f, HalfEven, Product(Left(f), Right(f)), Addend(ONE_POINT_ZERO)), r, s0, s1)
  {
    var t := Pow10(f.pmax - 2);
    assert f.Valid() && f.pmax >= 3;
    hide *;
    var s := SquareOf(f.pmax, t);
    OverlapCase(f, t, s);
    var p: nat := Near(s, t);
    KeptDigits(f, t, s, p);
    Disagree(f, 10 * p + 10, 1000 * p + 1, 25 * t + 1, r, s0, s1);
  }
}
