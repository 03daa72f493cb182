/** The rounding specification, restated as what IEEE 754 asks of each mode: a
    comparison of the result with every datum the format can hold. */
module Meaning {
  import opened Powers
  import opened Formats
  import opened Rounding

  /** Y units of 10^Qtiny is the magnitude of some finite datum. */
  ghost predicate Datum(f: Format, Y: nat)
    requires f.Valid()
  {
    exists c: nat, i: nat :: Writes(f, c, i, Y)
  }

  predicate Writes(f: Format, c: nat, i: nat, Y: nat)
    requires f.Valid()
  {
    c < Pow10(f.pmax) && i <= f.Top() && Y == c * Pow10(i)
  }

  /** The magnitude of a finite datum in units of 10^Qtiny. */
  function Units(f: Format, df: DecFloat): nat
    requires df.Finite? && df.exp >= f.Qtiny()
  {
    df.coef * Pow10(df.exp - f.Qtiny())
  }

  /** The largest finite magnitude. */
  function Nmax(f: Format): nat
    requires f.Valid()
  {
    (Pow10(f.pmax) - 1) * Pow10(f.Top())
  }

  predicate TowardZero(m: Mode, neg: bool) {
    m.Down? || (m.Floor? && !neg) || (m.Ceiling? && neg)
  }

  predicate AwayFromZero(m: Mode, neg: bool) {
    m.Up? || (m.Floor? && neg) || (m.Ceiling? && !neg)
  }

  predicate ToNearest(m: Mode) {
    m.HalfUp? || m.HalfEven? || m.HalfDown?
  }

  function Distance(a: int, b: int): nat {
    if a < b then b - a else a - b
  }

  // ---- the two neighbours of an inexact value ----

  /** The rounded integer of Finish, before carry and range are dealt with. */
  function Significand(m: Mode, x: Exact, j: nat): nat
    requires x.den > 0
  {
    MulLt(0, x.den, Pow10(j));
    RoundInt(m, x.neg, x.num, x.den * Pow10(j))
  }

  /** q units at exponent j is the value truncated there. */
  predicate Truncates(x: Exact, j: nat, q: nat) {
    q * Pow10(j) * x.den <= x.num < (q + 1) * Pow10(j) * x.den
  }

  /** The truncated value q, the residue r over D, and what rounding makes of them. */
  lemma Cut(m: Mode, x: Exact, j: nat) returns (q: nat, r: nat, D: nat)
    requires x.den > 0
    ensures D == x.den * Pow10(j) && r < D
    ensures Truncates(x, j, q) && x.num == q * Pow10(j) * x.den + r
    ensures (q + 1) * Pow10(j) * x.den == q * Pow10(j) * x.den + D
    ensures IntegralAt(x, j) <==> r == 0
    ensures Significand(m, x, j) == if r != 0 && Away(m, x.neg, q, r, D) then q + 1 else q
  {
    MulLt(0, x.den, Pow10(j));
    D := x.den * Pow10(j);
    q, r := x.num / D, x.num % D;
    DivModFact(x.num, D);
    Regroup(q, x.den, Pow10(j));
    Regroup(q + 1, x.den, Pow10(j));
    assert (q + 1) * D == q * D + D;
  }

  lemma Regroup(q: int, d: int, p: int)
    ensures q * (d * p) == q * p * d
  {
    MulAssoc(q, p, d);
  }

  /** Every datum is at or below the truncated value, or at or above the next one up. */
  lemma NoDatumBetween(f: Format, x: Exact, j: nat, q: nat, Y: nat)
    requires f.Valid() && x.den > 0 && Truncates(x, j, q) && Datum(f, Y)
    requires j == 0 || !FitsAt(f, x, j - 1)
    ensures Y <= q * Pow10(j) || (q + 1) * Pow10(j) <= Y
  {
    var c: nat, i: nat :| Writes(f, c, i, Y);
    if i >= j {
      CoarserDatum(c, i, j, q);
    } else {
      LowestDigits(f, x, j, q);
      FinerDatum(f.pmax, c, i, j);
    }
  }

  lemma CoarserDatum(c: nat, i: nat, j: nat, q: nat)
    requires j <= i
    ensures c * Pow10(i) <= q * Pow10(j) || (q + 1) * Pow10(j) <= c * Pow10(i)
  {
    Pow10Split(j, i);
    assert c * (Pow10(j) * Pow10(i - j)) == c * Pow10(i - j) * Pow10(j) by {
      Regroup(c, Pow10(j), Pow10(i - j));
      Regroup(c, Pow10(i - j), Pow10(j));
    }
    OnGrid(c * Pow10(i - j), q, Pow10(j));
  }

  lemma OnGrid(t: nat, q: nat, p: nat)
    ensures t * p <= q * p || (q + 1) * p <= t * p
  {
    if t <= q { MulLe(t, q, p); } else { MulLe(q + 1, t, p); }
  }

  lemma FinerDatum(p: nat, c: nat, i: nat, j: nat)
    requires c < Pow10(p) && i < j
    ensures c * Pow10(i) <= Pow10(p + j - 1)
  {
    Pow10Add(p, i);
    MulLe(c, Pow10(p), Pow10(i));
    Pow10Monotone(p + i, p + j - 1);
  }

  /** Rounding at the finest usable exponent keeps all pmax digits. */
  lemma LowestDigits(f: Format, x: Exact, j: nat, q: nat)
    requires f.Valid() && x.den > 0 && Truncates(x, j, q) && j > 0 && !FitsAt(f, x, j - 1)
    ensures q >= Pow10(f.pmax - 1) && q * Pow10(j) >= Pow10(f.pmax + j - 1)
  {
    Pow10Add(f.pmax - 1, j);
    CancelLt(Pow10(f.pmax + j - 1), (q + 1) * Pow10(j), x.den);
    CancelLt(Pow10(f.pmax - 1), q + 1, Pow10(j));
    MulLe(Pow10(f.pmax - 1), q, Pow10(j));
  }

  // ---- from the rounded integer to the datum that carries it ----

  /** Clamping keeps the value, unless it is beyond the format. */
  lemma ClampKeeps(f: Format, m: Mode, neg: bool, k: nat, j: nat, fl: set<Flag>)
    requires f.Valid() && k < Pow10(f.pmax)
    ensures var o := Clamp(f, m, neg, k, j, fl);
      if k * Pow10(j) < Pow10(f.pmax + f.Top())
      then o.df.Finite? && o.df.neg == neg && o.df.Fits(f) && Units(f, o.df) == k * Pow10(j) && o.flags == fl
           && o.df.coef == (if k > 0 && j > f.Top() then k * Pow10(j - f.Top()) else k)
      else o.df == Overflowed(f, m, neg) && o.flags == fl + {Overflow, Inexact}
  {
    hide Pow10;
    if k == 0 {
    } else if k * Pow10(j) < Pow10(f.pmax + f.Top()) && j > f.Top() {
      Pow10Split(f.Top(), j);
      MulAssoc(k, Pow10(j - f.Top()), Pow10(f.Top()));
      Pow10Add(f.pmax, f.Top());
      CancelLt(k * Pow10(j - f.Top()), Pow10(f.pmax), Pow10(f.Top()));
    }
  }

  lemma TruncatedRange(f: Format, x: Exact, j: nat, q: nat)
    requires x.den > 0 && FitsAt(f, x, j) && Truncates(x, j, q)
    ensures q < Pow10(f.pmax)
  {
    Pow10Add(f.pmax, j);
    CancelLt(q * Pow10(j), Pow10(f.pmax + j), x.den);
    CancelLt(q, Pow10(f.pmax), Pow10(j));
  }

  lemma SignificandRange(f: Format, m: Mode, x: Exact, j: nat)
    requires x.den > 0 && FitsAt(f, x, j)
    ensures Significand(m, x, j) <= Pow10(f.pmax)
  {
    var q, r, D := Cut(m, x, j);
    TruncatedRange(f, x, j, q);
  }

  /** Finish yields the significand's value exactly, or overflows when it is too large. */
  lemma FinishKeeps(f: Format, m: Mode, x: Exact, j: nat)
    requires f.Valid() && x.den > 0 && FitsAt(f, x, j)
    ensures Keeps(f, m, x, j, Significand(m, x, j), Finish(f, m, x, j))
  {
    SignificandRange(f, m, x, j);
    var k := Significand(m, x, j);
    if k == Pow10(f.pmax) {
      CarriedKeeps(f, m, x, j);
    } else {
      ClampKeeps(f, m, x.neg, k, j, RoundFlags(f, x, j));
      if k % 2 == 0 && j > f.Top() {
        EvenTimes(k, Pow10(j - f.Top()));
      }
    }
  }

  /** o carries the value k*10^j, or the overflow result when that is too large. */
  predicate Keeps(f: Format, m: Mode, x: Exact, j: nat, k: nat, o: Outcome)
    requires f.Valid() && x.den > 0
  {
    if k * Pow10(j) < Pow10(f.pmax + f.Top())
    then o.df.Finite? && o.df.neg == x.neg && o.df.Fits(f) && Units(f, o.df) == k * Pow10(j)
         && o.flags == RoundFlags(f, x, j)
         && (k % 2 == 0 ==> o.df.coef % 2 == 0)
    else o.df == Overflowed(f, m, x.neg) && o.flags == RoundFlags(f, x, j) + {Overflow, Inexact}
  }

  /** A carry out of all nines moves one place left and keeps the value. */
  lemma CarriedKeeps(f: Format, m: Mode, x: Exact, j: nat)
    requires f.Valid() && x.den > 0
    ensures Keeps(f, m, x, j, Pow10(f.pmax), Clamp(f, m, x.neg, Pow10(f.pmax - 1), j + 1, RoundFlags(f, x, j)))
  {
    assert Pow10(f.pmax - 1) * Pow10(j + 1) == Pow10(f.pmax) * Pow10(j) by {
      MulAssoc(Pow10(f.pmax - 1), 10, Pow10(j));
    }
    ClampKeeps(f, m, x.neg, Pow10(f.pmax - 1), j + 1, RoundFlags(f, x, j));
    EvenPower(f.pmax - 1, if j + 1 > f.Top() then Pow10(j + 1 - f.Top()) else 1);
  }

  lemma EvenPower(i: nat, b: nat)
    requires i > 0
    ensures Pow10(i) % 2 == 0 && (Pow10(i) * b) % 2 == 0
  {
    assert Pow10(i) == 2 * (5 * Pow10(i - 1));
    EvenTimes(Pow10(i), b);
  }

  lemma EvenTimes(a: nat, b: nat)
    requires a % 2 == 0
    ensures (a * b) % 2 == 0
  {
    var h := a / 2;
    assert a * b == 2 * (h * b) by { MulAssoc(2, h, b); }
  }

  /** Every datum is at most Nmax, and below the overflow threshold. */
  lemma DatumBound(f: Format, Y: nat)
    requires f.Valid() && Datum(f, Y)
    ensures Y <= Nmax(f) < Pow10(f.pmax + f.Top())
  {
    var c: nat, i: nat :| Writes(f, c, i, Y);
    Pow10Monotone(i, f.Top());
    MulLe(Pow10(i), Pow10(f.Top()), c);
    MulLe(c, Pow10(f.pmax) - 1, Pow10(f.Top()));
    Pow10Add(f.pmax, f.Top());
    MulLt(Pow10(f.pmax) - 1, Pow10(f.pmax), Pow10(f.Top()));
  }

  lemma NmaxIsDatum(f: Format)
    requires f.Valid()
    ensures Datum(f, Nmax(f))
    ensures Nmax(f) + Pow10(f.Top()) == Pow10(f.pmax + f.Top())
  {
    assert Writes(f, Pow10(f.pmax) - 1, f.Top(), Nmax(f));
    Pow10Add(f.pmax, f.Top());
  }

  lemma FitsIsDatum(f: Format, df: DecFloat)
    requires f.Valid() && df.Finite? && df.Fits(f)
    ensures Datum(f, Units(f, df))
  {
    assert Writes(f, df.coef, df.exp - f.Qtiny(), Units(f, df));
  }

  lemma FitsOfQuantum(f: Format, x: Exact, j: nat)
    requires x.den > 0 && Quantum(f, x, j)
    ensures FitsAt(f, x, j)
  {
  }

  /** A result is a datum of the format with the sign of the exact value, or infinite with that sign. */
  lemma ResultShape(f: Format, m: Mode, x: Exact, r: DecFloat, s0: set<Flag>, s1: set<Flag>)
    requires f.Valid() && x.den > 0 && Rounded(f, m, x, r, s0, s1)
    ensures (r.Finite? && r.Fits(f) && r.neg == x.neg) || r == Infinite(x.neg)
  {
    hide Pow10, Significand, Quantum, Finish;
    var j: nat :| Quantum(f, x, j) && r == Finish(f, m, x, j).df && s1 == s0 + Finish(f, m, x, j).flags;
    FitsOfQuantum(f, x, j);
    FinishKeeps(f, m, x, j);
    OverflowedShape(f, m, x.neg);
  }

  lemma OverflowedShape(f: Format, m: Mode, neg: bool)
    requires f.Valid()
    ensures var r := Overflowed(f, m, neg); (r.Finite? && r.Fits(f) && r.neg == neg) || r == Infinite(neg)
  {
  }

  // ---- the theorems, mode by mode ----

  /** Data at or below the exact value are at or below its truncation. */
  lemma BelowTruncation(f: Format, x: Exact, j: nat, q: nat, Y: nat)
    requires f.Valid() && x.den > 0 && Truncates(x, j, q) && Quantum(f, x, j)
    requires IntegralAt(x, j) ==> q * Pow10(j) * x.den == x.num
    requires Datum(f, Y) && Y * x.den <= x.num
    ensures Y <= q * Pow10(j)
  {
    if IntegralAt(x, j) {
      CancelLe(Y, q * Pow10(j), x.den);
    } else {
      NoDatumBetween(f, x, j, q, Y);
      CancelLt(Y, (q + 1) * Pow10(j), x.den);
    }
  }

  /** Rounding toward zero gives the greatest datum not above the magnitude, never infinity. */
  lemma DirectedDown(f: Format, m: Mode, x: Exact, r: DecFloat, s0: set<Flag>, s1: set<Flag>)
    requires f.Valid() && x.den > 0 && Rounded(f, m, x, r, s0, s1) && TowardZero(m, x.neg)
    ensures r.Finite? && r.neg == x.neg && r.Fits(f)
    ensures Units(f, r) * x.den <= x.num
    ensures forall Y: nat :: Datum(f, Y) && Y * x.den <= x.num ==> Y <= Units(f, r)
  {
    var j: nat :| Quantum(f, x, j) && r == Finish(f, m, x, j).df && s1 == s0 + Finish(f, m, x, j).flags;
    var q, _, _ := Cut(m, x, j);
    FinishKeeps(f, m, x, j);
    NmaxIsDatum(f);
    if q * Pow10(j) >= Pow10(f.pmax + f.Top()) {
      MulLe(Nmax(f), q * Pow10(j), x.den);
    }
    forall Y: nat | Datum(f, Y) && Y * x.den <= x.num
      ensures Y <= Units(f, r)
    {
      DatumBound(f, Y);
      BelowTruncation(f, x, j, q, Y);
    }
  }

  /** Data at or above the exact value are at or above its significand, rounded up. */
  lemma AboveSignificand(f: Format, m: Mode, x: Exact, j: nat, Y: nat)
    requires f.Valid() && x.den > 0 && Quantum(f, x, j) && AwayFromZero(m, x.neg)
    requires Datum(f, Y) && x.num <= Y * x.den
    ensures Significand(m, x, j) * Pow10(j) <= Y
  {
    var q, _, _ := Cut(m, x, j);
    if IntegralAt(x, j) {
      CancelLe(q * Pow10(j), Y, x.den);
    } else {
      NoDatumBetween(f, x, j, q, Y);
      if Y <= q * Pow10(j) {
        MulLe(Y, q * Pow10(j), x.den);
      }
    }
  }

  lemma SignificandAbove(m: Mode, x: Exact, j: nat)
    requires x.den > 0 && AwayFromZero(m, x.neg)
    ensures x.num <= Significand(m, x, j) * Pow10(j) * x.den
  {
    var q, _, _ := Cut(m, x, j);
  }

  /** Rounding away from zero gives the least datum not below the magnitude, and infinity
      exactly when every datum is below it. */
  lemma DirectedUp(f: Format, m: Mode, x: Exact, r: DecFloat, s0: set<Flag>, s1: set<Flag>)
    requires f.Valid() && x.den > 0 && Rounded(f, m, x, r, s0, s1) && AwayFromZero(m, x.neg)
    ensures r.Finite? || r == Infinite(x.neg)
    ensures r.Finite? ==> r.neg == x.neg && r.Fits(f) && x.num <= Units(f, r) * x.den
    ensures r.Finite? ==> forall Y: nat :: Datum(f, Y) && x.num <= Y * x.den ==> Units(f, r) <= Y
    ensures r.Infinite? <==> Nmax(f) * x.den < x.num
  {
    var j: nat :| Quantum(f, x, j) && r == Finish(f, m, x, j).df && s1 == s0 + Finish(f, m, x, j).flags;
    FinishKeeps(f, m, x, j);
    SignificandAbove(m, x, j);
    NmaxIsDatum(f);
    forall Y: nat | Datum(f, Y) && x.num <= Y * x.den
      ensures Significand(m, x, j) * Pow10(j) <= Y
    {
      AboveSignificand(f, m, x, j, Y);
    }
    if r.Finite? {
      FitsIsDatum(f, r);
      DatumBound(f, Units(f, r));
      MulLe(Units(f, r), Nmax(f), x.den);
    } else {
      DatumBound(f, Nmax(f));
    }
  }

  /** To-nearest modes: no datum is closer; infinity only from half a unit past Nmax. */
  lemma Nearest(f: Format, m: Mode, x: Exact, r: DecFloat, s0: set<Flag>, s1: set<Flag>)
    requires f.Valid() && x.den > 0 && Rounded(f, m, x, r, s0, s1) && ToNearest(m)
    ensures r.Finite? || r == Infinite(x.neg)
    ensures r.Finite? ==> r.neg == x.neg && r.Fits(f)
    ensures r.Finite? ==> forall Y: nat :: Datum(f, Y) ==> NoCloser(m, x, Units(f, r), r.coef % 2 == 0, Y)
    ensures r.Infinite? <==> PastMidpoint(f, m, x)
  {
    var j: nat :| Quantum(f, x, j) && r == Finish(f, m, x, j).df && s1 == s0 + Finish(f, m, x, j).flags;
    FinishKeeps(f, m, x, j);
    var k := Significand(m, x, j);
    if r.Finite? {
      forall Y: nat | Datum(f, Y)
        ensures NoCloser(m, x, Units(f, r), r.coef % 2 == 0, Y)
      {
        NearestAt(f, m, x, j, Y);
      }
    }
    Threshold(f, m, x, j);
  }

  /** Y is no closer to the exact value than V; a tie is broken as the mode says. */
  predicate NoCloser(m: Mode, x: Exact, V: nat, even: bool, Y: nat) {
    var a, b := Distance(V * x.den, x.num), Distance(Y * x.den, x.num);
    && a <= b
    && (a == b && V != Y ==>
          match m
          case HalfUp => V > Y
          case HalfDown => V < Y
          case _ => even)
  }

  /** The exact value is at least half a unit past Nmax (beyond it, when ties go down). */
  predicate PastMidpoint(f: Format, m: Mode, x: Exact)
    requires f.Valid()
  {
    var t := (2 * Nmax(f) + Pow10(f.Top())) * x.den;
    if m.HalfDown? then 2 * x.num > t else 2 * x.num >= t
  }

  lemma NearestAt(f: Format, m: Mode, x: Exact, j: nat, Y: nat)
    requires f.Valid() && x.den > 0 && Quantum(f, x, j) && ToNearest(m) && Datum(f, Y)
    ensures NoCloser(m, x, Significand(m, x, j) * Pow10(j), Significand(m, x, j) % 2 == 0, Y)
  {
    hide Pow10, Significand, Truncates, FitsAt, IntegralAt, Datum, NoCloser, Away;
    var q, r, D := Cut(m, x, j);
    if r == 0 {
      ExactIsNearest(m, x, q * Pow10(j), q % 2 == 0, Y);
    } else {
      NoDatumBetween(f, x, j, q, Y);
      NearestNeighbour(m, x, Pow10(j), D, q, r, Y);
    }
  }

  lemma ExactIsNearest(m: Mode, x: Exact, V: nat, even: bool, Y: nat)
    requires x.den > 0 && V * x.den == x.num
    ensures NoCloser(m, x, V, even, Y)
  {
    if Y < V { MulLt(Y, V, x.den); }
    if Y > V { MulLt(V, Y, x.den); }
  }

  /** One step of a grid of spacing p around x: the rounded neighbour is the nearest. */
  lemma NearestNeighbour(m: Mode, x: Exact, p: nat, D: nat, q: nat, r: nat, Y: nat)
    requires p > 0 && ToNearest(m) && x.den > 0 && D == x.den * p && 0 < r < D && x.num == q * p * x.den + r
    requires Y <= q * p || (q + 1) * p <= Y
    ensures var k := if Away(m, x.neg, q, r, D) then q + 1 else q; NoCloser(m, x, k * p, k % 2 == 0, Y)
  {
    var d := x.den;
    var a, b := q * p, (q + 1) * p;
    assert b == a + p;
    assert b * d == a * d + D;
    if Y <= a {
      MulLe(Y, a, d);
      if Y < a { MulLt(Y, a, d); }
    } else {
      MulLe(b, Y, d);
      if b < Y { MulLt(b, Y, d); }
    }
  }

  /** Overflow to infinity happens exactly from the midpoint above Nmax. */
  lemma Threshold(f: Format, m: Mode, x: Exact, j: nat)
    requires f.Valid() && x.den > 0 && Quantum(f, x, j) && ToNearest(m)
    ensures Significand(m, x, j) * Pow10(j) >= Pow10(f.pmax + f.Top()) <==> PastMidpoint(f, m, x)
  {
    if IntegralAt(x, j) {
      ThresholdExact(f, m, x, j);
    } else if j > f.Top() {
      ThresholdAbove(f, m, x, j);
    } else if j < f.Top() {
      ThresholdBelow(f, m, x, j);
    } else {
      ThresholdTop(f, m, x);
    }
  }

  lemma MidpointSides(n: nat, d: nat, N: nat, T: nat)
    requires d > 0 && T > 0
    ensures n >= (N + T) * d ==> 2 * n > (2 * N + T) * d
    ensures n <= N * d ==> 2 * n < (2 * N + T) * d
  {
    assert (2 * N + T) * d == 2 * (N * d) + T * d;
    assert (N + T) * d == N * d + T * d;
    MulLt(0, T, d);
  }

  lemma FarAbove(f: Format, m: Mode, x: Exact)
    requires f.Valid() && x.den > 0 && x.num >= Pow10(f.pmax + f.Top()) * x.den
    ensures PastMidpoint(f, m, x)
  {
    NmaxIsDatum(f);
    MidpointSides(x.num, x.den, Nmax(f), Pow10(f.Top()));
  }

  lemma NotAbove(f: Format, m: Mode, x: Exact)
    requires f.Valid() && x.den > 0 && x.num <= Nmax(f) * x.den
    ensures !PastMidpoint(f, m, x)
  {
    MidpointSides(x.num, x.den, Nmax(f), Pow10(f.Top()));
  }

  lemma ThresholdExact(f: Format, m: Mode, x: Exact, j: nat)
    requires f.Valid() && x.den > 0 && Quantum(f, x, j) && ToNearest(m) && IntegralAt(x, j)
    ensures Significand(m, x, j) * Pow10(j) >= Pow10(f.pmax + f.Top()) <==> PastMidpoint(f, m, x)
  {
    var q, r, _ := Cut(m, x, j);
    FinishKeeps(f, m, x, j);
    var X := Significand(m, x, j) * Pow10(j);
    if X >= Pow10(f.pmax + f.Top()) {
      MulLe(Pow10(f.pmax + f.Top()), X, x.den);
      FarAbove(f, m, x);
    } else {
      FitsIsDatum(f, Finish(f, m, x, j).df);
      DatumBound(f, X);
      MulLe(X, Nmax(f), x.den);
      NotAbove(f, m, x);
    }
  }

  lemma TruncatedLowest(f: Format, m: Mode, x: Exact, j: nat) returns (q: nat)
    requires f.Valid() && x.den > 0 && j > 0 && !FitsAt(f, x, j - 1)
    ensures q * Pow10(j) >= Pow10(f.pmax + j - 1) && q <= Significand(m, x, j)
  {
    var r, D;
    q, r, D := Cut(m, x, j);
    LowestDigits(f, x, j, q);
  }

  lemma SignificandLowest(f: Format, m: Mode, x: Exact, j: nat)
    requires f.Valid() && x.den > 0 && j > 0 && !FitsAt(f, x, j - 1)
    ensures Significand(m, x, j) * Pow10(j) >= Pow10(f.pmax + j - 1)
  {
    var q := TruncatedLowest(f, m, x, j);
    MulLe(q, Significand(m, x, j), Pow10(j));
  }

  lemma ThresholdAbove(f: Format, m: Mode, x: Exact, j: nat)
    requires f.Valid() && x.den > 0 && j > f.Top() && !FitsAt(f, x, j - 1)
    ensures Significand(m, x, j) * Pow10(j) >= Pow10(f.pmax + f.Top()) && PastMidpoint(f, m, x)
  {
    SignificandLowest(f, m, x, j);
    Pow10Monotone(f.pmax + f.Top(), f.pmax + j - 1);
    MulLe(Pow10(f.pmax + f.Top()), Pow10(f.pmax + j - 1), x.den);
    FarAbove(f, m, x);
  }

  lemma ThresholdBelow(f: Format, m: Mode, x: Exact, j: nat)
    requires f.Valid() && x.den > 0 && j < f.Top() && FitsAt(f, x, j)
    ensures Significand(m, x, j) * Pow10(j) < Pow10(f.pmax + f.Top()) && !PastMidpoint(f, m, x)
  {
    SignificandRange(f, m, x, j);
    MulLe(Significand(m, x, j), Pow10(f.pmax), Pow10(j));
    Pow10Add(f.pmax, j);
    Pow10Grows(f.pmax + j, f.pmax + f.Top());
    NmaxIsDatum(f);
    Pow10Grows(f.Top(), f.pmax + f.Top());
    MulLe(Pow10(f.pmax + j), Nmax(f), x.den);
    NotAbove(f, m, x);
  }

  lemma ThresholdTop(f: Format, m: Mode, x: Exact)
    requires f.Valid() && x.den > 0 && FitsAt(f, x, f.Top()) && ToNearest(m)
    ensures Significand(m, x, f.Top()) * Pow10(f.Top()) >= Pow10(f.pmax + f.Top()) <==> PastMidpoint(f, m, x)
  {
    var P, k := Pow10(f.pmax), Significand(m, x, f.Top());
    SignificandRange(f, m, x, f.Top());
    Pow10Add(f.pmax, f.Top());
    if k < P { MulLt(k, P, Pow10(f.Top())); }
    TopCarries(f, m, x);
  }

  lemma TopCarries(f: Format, m: Mode, x: Exact)
    requires f.Valid() && x.den > 0 && ToNearest(m) && FitsAt(f, x, f.Top())
    ensures Significand(m, x, f.Top()) == Pow10(f.pmax) <==> PastMidpoint(f, m, x)
  {
    var q, r, D := Cut(m, x, f.Top());
    TruncatedRange(f, x, f.Top(), q);
    TopDecision(m, x, Pow10(f.Top()), Pow10(f.pmax), Pow10(f.pmax - 1), q, r, D);
  }

  /** At the top exponent the carry out of all nines is the step over the midpoint. */
  lemma TopDecision(m: Mode, x: Exact, T: nat, P: nat, P': nat, q: nat, r: nat, D: nat)
    requires x.den > 0 && T > 0 && ToNearest(m) && P == 10 * P' && q <= P - 1
    requires x.num == q * T * x.den + r && D == x.den * T && r < D
    ensures var t := (2 * ((P - 1) * T) + T) * x.den;
      (if r != 0 && Away(m, x.neg, q, r, D) then q + 1 else q) == P
      <==> if m.HalfDown? then 2 * x.num > t else 2 * x.num >= t
  {
    TopResidue(x.num, x.den, T, P, q, r, D);
    assert (P - 1) % 2 == 1;
  }

  /** Where n = q*T*d + r stands relative to the midpoint above (P-1)*T. */
  lemma TopResidue(n: nat, d: nat, T: nat, P: nat, q: nat, r: nat, D: nat)
    requires d > 0 && T > 0 && n == q * T * d + r && D == d * T && r < D && q <= P - 1
    ensures var t := (2 * ((P - 1) * T) + T) * d;
      if q == P - 1 then (2 * n > t <==> 2 * r > D) && (2 * n == t <==> 2 * r == D) else 2 * n < t
  {
    var a := (P - 1) * T;
    assert (2 * a + T) * d == 2 * (a * d) + D;
    if q < P - 1 {
      assert (q + 1) * T * d == q * T * d + D by {
        assert (q + 1) * T == q * T + T;
      }
      MulLe(q + 1, P - 1, T);
      MulLe((q + 1) * T, a, d);
    }
  }

  // ---- when there is overflow ----

  /** The value rounded with an unbounded exponent is beyond Nmax: from the midpoint on in the nearest modes, just
      past Nmax in a mode away from zero, and from the next power of ten on in the others. */
  predicate Overflows(f: Format, m: Mode, x: Exact)
    requires f.Valid()
  {
    if ToNearest(m) then PastMidpoint(f, m, x)
    else if AwayFromZero(m, x.neg) then x.num > Nmax(f) * x.den
    else x.num >= Pow10(f.pmax + f.Top()) * x.den
  }

  /** From the next power of ten on every mode overflows. */
  lemma HugeOverflows(f: Format, m: Mode, x: Exact, j: nat)
    requires f.Valid() && x.den > 0 && Quantum(f, x, j) && x.num >= Pow10(f.pmax + f.Top()) * x.den
    ensures Significand(m, x, j) * Pow10(j) >= Pow10(f.pmax + f.Top())
  {
    hide Pow10, Significand, Truncates;
    if j <= f.Top() {
      FitsGrows(f, x, j, f.Top());
      assert false;
    }
    if IntegralAt(x, j) {
      SignificandExact(m, x, j);
      CancelLe(Pow10(f.pmax + f.Top()), Significand(m, x, j) * Pow10(j), x.den);
    } else {
      SignificandLowest(f, m, x, j);
      Pow10Monotone(f.pmax + f.Top(), f.pmax + j - 1);
    }
  }

  /** Below it, truncation does not, and re-rounding never steps over nines. */
  lemma BelowPower(f: Format, m: Mode, x: Exact, j: nat)
    requires f.Valid() && x.den > 0 && Quantum(f, x, j) && x.num < Pow10(f.pmax + f.Top()) * x.den
    requires !ToNearest(m) && !AwayFromZero(m, x.neg)
    ensures Significand(m, x, j) * Pow10(j) < Pow10(f.pmax + f.Top())
  {
    FitsOfQuantum(f, x, j);
    hide *;
    var q, r, D := Cut(m, x, j);
    var T, k := Pow10(f.pmax + f.Top()), Significand(m, x, j);
    TruncatedBelow(x, j, q, T);
    if k != q {
      BumpedFive(m, x, q, r, D);
      NoFiner(f, x, j);
      TruncatedRange(f, x, j, q);
      NinesAtTop(f, q, j);
    }
  }

  lemma TruncatedBelow(x: Exact, j: nat, q: nat, T: nat)
    requires x.den > 0 && Truncates(x, j, q) && x.num < T * x.den
    ensures q * Pow10(j) < T
  {
    CancelLt(q * Pow10(j), T, x.den);
  }

  lemma NoFiner(f: Format, x: Exact, j: nat)
    requires f.Valid() && x.den > 0 && Quantum(f, x, j) && !IntegralAt(x, j) && x.num < Pow10(f.pmax + f.Top()) * x.den
    ensures j <= f.Top()
  {
    if j > f.Top() {
      FitsGrows(f, x, f.Top(), j - 1);
    }
  }

  /** The step to the next power of ten is from a coefficient of nines. */
  lemma NinesAtTop(f: Format, q: nat, j: nat)
    requires f.Valid() && j <= f.Top() && q < Pow10(f.pmax) && q % 5 == 0
    ensures (q + 1) * Pow10(j) < Pow10(f.pmax + f.Top())
  {
    assert Pow10(f.pmax) == 10 * Pow10(f.pmax - 1);
    assert f.pmax >= 2;
    hide *;
    NotNines(q, Pow10(f.pmax - 1));
    MulLt(q + 1, Pow10(f.pmax), Pow10(j));
    Pow10Add(f.pmax, j);
    Pow10Monotone(f.pmax + j, f.pmax + f.Top());
  }

  lemma NotNines(q: nat, p: nat)
    requires q < 10 * p && q % 5 == 0
    ensures q + 1 < 10 * p
  {
    assert q == 5 * (q / 5);
  }

  /** A significand other than the truncated one, where only re-rounding rounds up. */
  lemma BumpedFive(m: Mode, x: Exact, q: nat, r: nat, D: nat)
    requires !ToNearest(m) && !AwayFromZero(m, x.neg) && Away(m, x.neg, q, r, D)
    ensures q % 5 == 0
  {
    assert q == 10 * (q / 10) + q % 10;
  }

  /** The rounded significand is out of range exactly then. */
  lemma OverflowExactly(f: Format, m: Mode, x: Exact, j: nat)
    requires f.Valid() && x.den > 0 && Quantum(f, x, j)
    ensures Significand(m, x, j) * Pow10(j) >= Pow10(f.pmax + f.Top()) <==> Overflows(f, m, x)
  {
    if ToNearest(m) {
      Threshold(f, m, x, j);
    } else if AwayFromZero(m, x.neg) {
      var o := Finish(f, m, x, j);
      assert Rounded(f, m, x, o.df, {}, {} + o.flags);
      DirectedUp(f, m, x, o.df, {}, {} + o.flags);
      FinishKeeps(f, m, x, j);
    } else if x.num >= Pow10(f.pmax + f.Top()) * x.den {
      HugeOverflows(f, m, x, j);
    } else {
      BelowPower(f, m, x, j);
    }
  }

  // ---- status, exact results, and rounding for re-rounding ----

  /** The flags raised say exactly what happened to the value. */
  lemma StatusMeaning(f: Format, m: Mode, x: Exact, r: DecFloat, s1: set<Flag>)
    requires f.Valid() && x.den > 0 && Rounded(f, m, x, r, {}, s1)
    ensures s1 <= {Inexact, Underflow, Overflow}
    ensures Inexact in s1 <==> !(r.Finite? && r.Fits(f) && Units(f, r) * x.den == x.num)
    ensures Underflow in s1 <==> Inexact in s1 && x.num < x.den * Pow10(f.pmax - 1)
    ensures Overflow in s1 <==> Overflows(f, m, x)
    ensures Overflow in s1 ==> r == Overflowed(f, m, x.neg) && x.num > Nmax(f) * x.den
    ensures r.Infinite? ==> Overflow in s1
  {
    var j: nat :| Quantum(f, x, j) && r == Finish(f, m, x, j).df && s1 == {} + Finish(f, m, x, j).flags;
    FinishKeeps(f, m, x, j);
    OverflowExactly(f, m, x, j);
    hide Overflows;
    if Significand(m, x, j) * Pow10(j) >= Pow10(f.pmax + f.Top()) {
      OverflowIsLarge(f, m, x, j);
      OverflowIsInexact(f, m, x);
    } else {
      SignificandExact(m, x, j);
    }
  }

  lemma ClampFull(f: Format, m: Mode, neg: bool, k: nat, j: nat, fl: set<Flag>)
    requires f.Valid() && (k >= Pow10(f.pmax - 1) || j == 0 || Inexact !in fl)
    ensures var o := Clamp(f, m, neg, k, j, fl);
      Inexact in o.flags && o.df.Finite? ==> o.df.exp == f.Qtiny() || o.df.coef >= Pow10(f.pmax - 1)
  {
    assert Pow10(f.pmax) == 10 * Pow10(f.pmax - 1);
    hide Pow10;
    if j > f.Top() {
      MulLe(1, Pow10(j - f.Top()), k);
    }
  }

  /** An inexact result keeps all the digits there are: its coefficient is full, or its exponent the least. */
  lemma InexactFull(f: Format, m: Mode, x: Exact, r: DecFloat, s1: set<Flag>)
    requires f.Valid() && x.den > 0 && Rounded(f, m, x, r, {}, s1) && Inexact in s1 && r.Finite?
    ensures r.coef >= Pow10(f.pmax - 1) || r.exp == f.emin - f.pmax + 1
  {
    var j: nat :| Quantum(f, x, j) && r == Finish(f, m, x, j).df && s1 == {} + Finish(f, m, x, j).flags;
    var q, d, D := Cut(m, x, j);
    var k := Significand(m, x, j);
    if !IntegralAt(x, j) && j > 0 {
      LowestDigits(f, x, j, q);
    }
    hide Pow10, Clamp;
    if k == Pow10(f.pmax) {
      ClampFull(f, m, x.neg, Pow10(f.pmax - 1), j + 1, RoundFlags(f, x, j));
    } else {
      ClampFull(f, m, x.neg, k, j, RoundFlags(f, x, j));
    }
  }

  lemma SignificandExact(m: Mode, x: Exact, j: nat)
    requires x.den > 0
    ensures IntegralAt(x, j) <==> Significand(m, x, j) * Pow10(j) * x.den == x.num
  {
    var q, r, D := Cut(m, x, j);
  }

  lemma OverflowIsLarge(f: Format, m: Mode, x: Exact, j: nat)
    requires f.Valid() && x.den > 0 && Quantum(f, x, j)
    requires Significand(m, x, j) * Pow10(j) >= Pow10(f.pmax + f.Top())
    ensures x.num > Nmax(f) * x.den
  {
    NmaxIsDatum(f);
    DatumBound(f, Nmax(f));
    var q, r, D := Cut(m, x, j);
    if x.num <= Nmax(f) * x.den {
      if r == 0 {
        MulLt(Nmax(f), q * Pow10(j), x.den);
        assert false;
      } else {
        NoDatumBetween(f, x, j, q, Nmax(f));
        LargeNeighbour(f, x, j, q);
      }
    }
  }

  /** A value between its truncation and an overflowing neighbour is above Nmax. */
  lemma LargeNeighbour(f: Format, x: Exact, j: nat, q: nat)
    requires f.Valid() && x.den > 0 && Truncates(x, j, q) && q * Pow10(j) * x.den != x.num
    requires (q + 1) * Pow10(j) >= Pow10(f.pmax + f.Top())
    requires Nmax(f) <= q * Pow10(j) || (q + 1) * Pow10(j) <= Nmax(f)
    ensures x.num > Nmax(f) * x.den
  {
    NmaxIsDatum(f);
    MulLe(Nmax(f), q * Pow10(j), x.den);
  }

  lemma OverflowIsInexact(f: Format, m: Mode, x: Exact)
    requires f.Valid() && x.den > 0 && x.num > Nmax(f) * x.den
    ensures var r := Overflowed(f, m, x.neg); r.Finite? ==> Units(f, r) * x.den != x.num
    ensures x.num >= x.den * Pow10(f.pmax - 1)
  {
    Pow10Grows(f.pmax - 1, f.pmax);
    MulLe(1, Pow10(f.Top()), Pow10(f.pmax) - 1);
    MulLe(Pow10(f.pmax - 1), Nmax(f), x.den);
  }

  /** c units at exponent i is exactly x. */
  predicate Represents(f: Format, x: Exact, c: nat, i: nat)
    requires f.Valid()
  {
    c < Pow10(f.pmax) && i <= f.Top() && c * Pow10(i) * x.den == x.num
  }

  lemma RepresentsFacts(f: Format, x: Exact, c: nat, i: nat)
    requires f.Valid() && x.den > 0 && Represents(f, x, c, i)
    ensures i <= f.Top() && IntegralAt(x, i) && FitsAt(f, x, i) && x.num < Pow10(f.pmax + f.Top()) * x.den
  {
    Pow10Add(f.pmax, i);
    MulLt(c, Pow10(f.pmax), Pow10(i));
    MulLt(c * Pow10(i), Pow10(f.pmax + i), x.den);
    Pow10Monotone(f.pmax + i, f.pmax + f.Top());
    MulLe(Pow10(f.pmax + i), Pow10(f.pmax + f.Top()), x.den);
    MulLt(0, x.den, Pow10(i));
    Regroup(c, x.den, Pow10(i));
    DivModUnique(x.num, x.den * Pow10(i), c, 0);
  }

  /** A value the format can hold is returned unchanged, silently, and with the exponent
      nearest the ideal one of all those it can be written with. */
  lemma ExactPreferred(f: Format, m: Mode, x: Exact, r: DecFloat, s0: set<Flag>, s1: set<Flag>, c: nat, i: nat)
    requires f.Valid() && x.den > 0 && Rounded(f, m, x, r, s0, s1) && Represents(f, x, c, i)
    ensures r.Finite? && r.neg == x.neg && r.Fits(f) && Units(f, r) * x.den == x.num && s1 == s0
    ensures Distance(r.exp - f.Qtiny(), x.ideal) <= Distance(i, x.ideal)
  {
    hide Pow10, Finish, Units, Represents, FitsAt, IntegralAt;
    var j: nat :| Quantum(f, x, j) && r == Finish(f, m, x, j).df && s1 == s0 + Finish(f, m, x, j).flags;
    RepresentsFacts(f, x, c, i);
    if j <= i {
      IntegralShrinks(x, j, i);
    } else {
      FitsGrows(f, x, i, j - 1);
    }
    ExactKept(f, m, x, j);
    if i > j {
      IntegralShrinks(x, j + 1, i);
    }
  }

  lemma ExactKept(f: Format, m: Mode, x: Exact, j: nat)
    requires f.Valid() && x.den > 0 && Quantum(f, x, j) && IntegralAt(x, j)
    requires x.num < Pow10(f.pmax + f.Top()) * x.den
    ensures var o := Finish(f, m, x, j);
      o.df.Finite? && o.df.neg == x.neg && o.df.Fits(f) && Units(f, o.df) * x.den == x.num && o.flags == {}
      && o.df.exp == f.Qtiny() + Min(j, f.Top())
  {
    var q, r, D := Cut(m, x, j);
    TruncatedRange(f, x, j, q);
    CancelLt(q * Pow10(j), Pow10(f.pmax + f.Top()), x.den);
    FinishKeeps(f, m, x, j);
  }

  /** Round-for-reround: a neighbour of the exact value that, when inexact, never ends in 0 or 5. */
  lemma ReRoundTrace(f: Format, x: Exact, r: DecFloat, s1: set<Flag>)
    requires f.Valid() && x.den > 0 && Rounded(f, ReRound05, x, r, {}, s1)
    ensures r.Finite? && r.neg == x.neg && r.Fits(f)
    ensures Inexact in s1 ==> r.coef % 5 != 0
    ensures Overflow !in s1 ==> Distance(Units(f, r) * x.den, x.num) < Pow10(r.exp - f.Qtiny()) * x.den
  {
    hide Pow10, Significand, Quantum, Finish, Units, Distance;
    var j: nat :| Quantum(f, x, j) && r == Finish(f, ReRound05, x, j).df && s1 == {} + Finish(f, ReRound05, x, j).flags;
    FitsOfQuantum(f, x, j);
    FinishKeeps(f, ReRound05, x, j);
    NmaxTail(f.pmax);
    if Significand(ReRound05, x, j) * Pow10(j) < Pow10(f.pmax + f.Top()) {
      ReRoundExponent(f, x, j);
    }
  }

  lemma NmaxTail(p: nat)
    requires p > 0
    ensures (Pow10(p) - 1) % 5 == 4
  {
    assert Pow10(p) == 5 * (2 * Pow10(p - 1));
  }

  lemma ReRoundDigit(f: Format, x: Exact, j: nat)
    requires f.Valid() && x.den > 0 && FitsAt(f, x, j)
    ensures !IntegralAt(x, j) ==> Significand(ReRound05, x, j) % 5 != 0
    ensures !IntegralAt(x, j) ==> Significand(ReRound05, x, j) < Pow10(f.pmax)
  {
    var q, r, D := Cut(ReRound05, x, j);
    TruncatedRange(f, x, j, q);
    NmaxTail(f.pmax);
    Mod5(q);
  }

  lemma Mod5(q: nat)
    ensures q % 5 == 0 <==> q % 10 == 0 || q % 10 == 5
    ensures q % 5 == 0 ==> (q + 1) % 5 == 1
  {
  }

  lemma Neighbour(x: Exact, j: nat)
    requires x.den > 0
    ensures Distance(Significand(ReRound05, x, j) * Pow10(j) * x.den, x.num) < Pow10(j) * x.den
  {
    var q, r, D := Cut(ReRound05, x, j);
    var k := Significand(ReRound05, x, j);
    assert k * Pow10(j) * x.den == if k == q then x.num - r else x.num - r + D;
  }

  /** Unless it overflows, an inexact result keeps the exponent it was rounded at. */
  lemma ReRoundExponent(f: Format, x: Exact, j: nat)
    requires f.Valid() && x.den > 0 && Quantum(f, x, j)
    requires Significand(ReRound05, x, j) * Pow10(j) < Pow10(f.pmax + f.Top())
    ensures var r := Finish(f, ReRound05, x, j).df;
      r.Finite? && r.exp >= f.Qtiny()
      && Distance(Units(f, r) * x.den, x.num) < Pow10(r.exp - f.Qtiny()) * x.den
      && (!IntegralAt(x, j) ==> r.coef % 5 != 0)
  {
    FinishKeeps(f, ReRound05, x, j);
    var r := Finish(f, ReRound05, x, j).df;
    if IntegralAt(x, j) {
      SignificandExact(ReRound05, x, j);
      MulLt(0, Pow10(r.exp - f.Qtiny()), x.den);
    } else {
      Neighbour(x, j);
      ReRoundDigit(f, x, j);
      if j > f.Top() {
        SignificandLowest(f, ReRound05, x, j);
        Pow10Monotone(f.pmax + f.Top(), f.pmax + j - 1);
        assert false;
      }
    }
  }
}
