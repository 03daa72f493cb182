/** What each rounding mode, named one by one, asks of a result, and what exact value an operation hands to rounding. */
module Modes {
  import opened Powers
  import opened Formats
  import opened Rounding
  import opened Meaning

  /** The parameters of the three formats (IEEE 754, section 3.6). */
  lemma FormatLimits()
    ensures SINGLE.pmax == 7 && SINGLE.Qtiny() == -101 && SINGLE.Qmax() == 90
    ensures DOUBLE.pmax == 16 && DOUBLE.Qtiny() == -398 && DOUBLE.Qmax() == 369
    ensures QUAD.pmax == 34 && QUAD.Qtiny() == -6176 && QUAD.Qmax() == 6111
  {
  }

  /** An exact value is n/d*10^e: multiplied out, in units of the least quantum, and with e as the exponent it prefers. */
  lemma ExactOfMeans(f: Format, neg: bool, n: nat, d: nat, e: int)
    requires d > 0
    ensures var x, q := ExactOf(f, neg, n, d, e), f.emin - f.pmax + 1;
      && x.neg == neg && x.ideal == e - q
      && (if e >= q then x.num * d == n * Pow10(e - q) * x.den else x.num * d * Pow10(q - e) == n * x.den)
  {
    hide Pow10;
    if e < f.Qtiny() {
      MulAssoc(n, d, Pow10(f.Qtiny() - e));
    }
  }

  // ---- integers ----

  lemma OneMoreTimes(q: nat, d: nat)
    ensures (q + 1) * d == q * d + d
  {
  }

  lemma ModeAway(m: Mode, neg: bool, q: nat, r: nat, d: nat)
    ensures Away(m, neg, q, r, d) <==>
      || m == Up || (m == Ceiling && !neg) || (m == Floor && neg)
      || (m == HalfUp && 2 * r >= d) || (m == HalfDown && 2 * r > d)
      || (m == HalfEven && (2 * r > d || (2 * r == d && q % 2 == 1)))
      || (m == ReRound05 && (q % 10 == 0 || q % 10 == 5))
  {
  }

  lemma LastOfFive(q: nat)
    ensures (q % 10 == 0 || q % 10 == 5 <==> q % 5 == 0) && (q % 5 == 0 ==> (q + 1) % 5 == 1)
  {
  }

  lemma EvenAfter(q: nat)
    ensures q % 2 == 1 ==> (q + 1) % 2 == 0
    ensures q % 2 == 1 || q % 2 == 0
  {
  }

  /** The multiple kd of d just above n. */
  lemma StepAway(m: Mode, neg: bool, q: nat, r: nat, d: nat, n: nat, kd: nat)
    requires 0 < r < d && kd == n - r + d && Away(m, neg, q, r, d)
    ensures n - d < kd < n + d && kd != n && m != Down && !(m == Ceiling && neg) && !(m == Floor && !neg)
    ensures m == HalfUp || m == HalfEven ==> 0 - d < 2 * kd - 2 * n <= d
    ensures m == HalfDown ==> 0 - d < 2 * kd - 2 * n < d
    ensures m == HalfEven && 2 * kd - 2 * n == d ==> (q + 1) % 2 == 0
    ensures m == ReRound05 ==> (q + 1) % 5 == 1
  {
    hide Away;
    ModeAway(m, neg, q, r, d);
    LastOfFive(q);
    EvenAfter(q);
  }

  /** The multiple at or below it. */
  lemma StepDown(m: Mode, neg: bool, q: nat, r: nat, d: nat, n: nat, kd: nat)
    requires r < d && kd == n - r && (r == 0 || !Away(m, neg, q, r, d))
    ensures n - d < kd <= n && (kd == n <==> r == 0) && (r > 0 ==> m != Up && !(m == Ceiling && !neg) && !(m == Floor && neg))
    ensures m == HalfUp ==> 0 - d < 2 * kd - 2 * n <= d
    ensures m == HalfDown || m == HalfEven ==> 0 - d <= 2 * kd - 2 * n < d
    ensures m == HalfEven && 2 * kd - 2 * n == 0 - d ==> q % 2 == 0
    ensures m == ReRound05 && r > 0 ==> q % 5 != 0
  {
    hide Away;
    ModeAway(m, neg, q, r, d);
    LastOfFive(q);
    EvenAfter(q);
  }

  /** n/d rounded to an integer k, in each mode. */
  lemma IntegerByMode(m: Mode, neg: bool, n: nat, d: nat)
    requires d > 0
    ensures var k := RoundInt(m, neg, n, d);
      && n - d < k * d < n + d && (k * d == n <==> n % d == 0)
      && (m == Ceiling ==> if neg then k * d <= n else n <= k * d)
      && (m == Floor ==> if neg then n <= k * d else k * d <= n)
      && (m == Up ==> n <= k * d) && (m == Down ==> k * d <= n)
      && (m == HalfUp ==> 0 - d < 2 * (k * d) - 2 * n <= d)
      && (m == HalfDown ==> 0 - d <= 2 * (k * d) - 2 * n < d)
      && (m == HalfEven ==> 0 - d <= 2 * (k * d) - 2 * n <= d)
      && (m == HalfEven && (2 * (k * d) - 2 * n == d || 2 * (k * d) - 2 * n == 0 - d) ==> k % 2 == 0)
      && (m == ReRound05 && k * d != n ==> k % 5 != 0 && (n < k * d ==> k % 5 == 1))
  {
    hide Away;
    var q, r := n / d, n % d;
    DivModFact(n, d);
    ModeAway(m, neg, q, r, d);
    if r != 0 && Away(m, neg, q, r, d) {
      OneMoreTimes(q, d);
      StepAway(m, neg, q, r, d, n, (q + 1) * d);
    } else {
      StepDown(m, neg, q, r, d, n, q * d);
    }
  }

  // ---- data ----

  /** A finite datum's signed magnitude in units of 10^Qtiny, times d. */
  function Worth(f: Format, y: DecFloat, d: nat): int
    requires y.Finite? && y.exp >= f.Qtiny()
  {
    if y.neg then 0 - y.coef * Pow10(y.exp - f.Qtiny()) * d else y.coef * Pow10(y.exp - f.Qtiny()) * d
  }

  function SignedNum(x: Exact): int {
    if x.neg then 0 - x.num else x.num
  }

  lemma WorthUnits(f: Format, y: DecFloat, d: nat)
    requires f.Valid() && y.Finite? && y.Fits(f)
    ensures Datum(f, Units(f, y)) && 0 <= Units(f, y) * d
    ensures Worth(f, y, d) == if y.neg then 0 - Units(f, y) * d else Units(f, y) * d
  {
    FitsIsDatum(f, y);
    MulLe(0, Units(f, y), d);
  }

  lemma MagnitudeUp(f: Format, m: Mode, x: Exact, r: DecFloat, s0: set<Flag>, s1: set<Flag>, Y: nat)
    requires f.Valid() && x.den > 0 && Rounded(f, m, x, r, s0, s1) && Datum(f, Y)
    requires m == Up || m == if x.neg then Floor else Ceiling
    ensures r == Infinite(x.neg) || (r.Finite? && r.Fits(f) && r.neg == x.neg)
    ensures r.Finite? ==> x.num <= Units(f, r) * x.den && (x.num <= Y * x.den ==> Units(f, r) * x.den <= Y * x.den)
    ensures r.Infinite? ==> Y * x.den < x.num
  {
    DirectedUp(f, m, x, r, s0, s1);
    DatumBound(f, Y);
    hide Rounded, Units, Nmax, Datum;
    MulLe(Y, Nmax(f), x.den);
    if r.Finite? && x.num <= Y * x.den {
      MulLe(Units(f, r), Y, x.den);
    }
  }

  lemma MagnitudeDown(f: Format, m: Mode, x: Exact, r: DecFloat, s0: set<Flag>, s1: set<Flag>, Y: nat)
    requires f.Valid() && x.den > 0 && Rounded(f, m, x, r, s0, s1) && Datum(f, Y)
    requires m == Down || m == if x.neg then Ceiling else Floor
    ensures r.Finite? && r.Fits(f) && r.neg == x.neg && Units(f, r) * x.den <= x.num
    ensures Y * x.den <= x.num ==> Y * x.den <= Units(f, r) * x.den
  {
    DirectedDown(f, m, x, r, s0, s1);
    hide Rounded, Units, Nmax, Datum;
    if Y * x.den <= x.num {
      MulLe(Y, Units(f, r), x.den);
    }
  }

  /** Toward plus infinity: the least datum not below the exact value; plus infinity when there is none. */
  lemma CeilingMeans(f: Format, x: Exact, r: DecFloat, s0: set<Flag>, s1: set<Flag>, y: DecFloat)
    requires f.Valid() && x.den > 0 && Rounded(f, Ceiling, x, r, s0, s1) && y.Finite? && y.Fits(f)
    ensures r == Infinite(false) || (r.Finite? && r.Fits(f))
    ensures r.Finite? ==> SignedNum(x) <= Worth(f, r, x.den) && (SignedNum(x) <= Worth(f, y, x.den) ==> Worth(f, r, x.den) <= Worth(f, y, x.den))
    ensures r.Infinite? ==> Worth(f, y, x.den) < SignedNum(x)
  {
    WorthUnits(f, y, x.den);
    hide Rounded, Units, Nmax, Datum, Worth;
    if x.neg {
      MagnitudeDown(f, Ceiling, x, r, s0, s1, Units(f, y));
    } else {
      MagnitudeUp(f, Ceiling, x, r, s0, s1, Units(f, y));
    }
    if r.Finite? { WorthUnits(f, r, x.den); }
  }

  /** Toward minus infinity: the greatest datum not above it. */
  lemma FloorMeans(f: Format, x: Exact, r: DecFloat, s0: set<Flag>, s1: set<Flag>, y: DecFloat)
    requires f.Valid() && x.den > 0 && Rounded(f, Floor, x, r, s0, s1) && y.Finite? && y.Fits(f)
    ensures r == Infinite(true) || (r.Finite? && r.Fits(f))
    ensures r.Finite? ==> Worth(f, r, x.den) <= SignedNum(x) && (Worth(f, y, x.den) <= SignedNum(x) ==> Worth(f, y, x.den) <= Worth(f, r, x.den))
    ensures r.Infinite? ==> SignedNum(x) < Worth(f, y, x.den)
  {
    WorthUnits(f, y, x.den);
    hide Rounded, Units, Nmax, Datum, Worth;
    if x.neg {
      MagnitudeUp(f, Floor, x, r, s0, s1, Units(f, y));
    } else {
      MagnitudeDown(f, Floor, x, r, s0, s1, Units(f, y));
    }
    if r.Finite? { WorthUnits(f, r, x.den); }
  }

  /** Away from zero: the least magnitude not below that of the exact value, with its sign. */
  lemma UpMeans(f: Format, x: Exact, r: DecFloat, s0: set<Flag>, s1: set<Flag>, y: DecFloat)
    requires f.Valid() && x.den > 0 && Rounded(f, Up, x, r, s0, s1) && y.Finite? && y.Fits(f) && y.neg == x.neg
    ensures r == Infinite(x.neg) || (r.Finite? && r.Fits(f) && r.neg == x.neg)
    ensures r.Finite? && !x.neg ==> x.num <= Worth(f, r, x.den) && (x.num <= Worth(f, y, x.den) ==> Worth(f, r, x.den) <= Worth(f, y, x.den))
    ensures r.Finite? && x.neg ==> Worth(f, r, x.den) <= 0 - x.num && (Worth(f, y, x.den) <= 0 - x.num ==> Worth(f, y, x.den) <= Worth(f, r, x.den))
  {
    WorthUnits(f, y, x.den);
    hide Rounded, Units, Nmax, Datum, Worth;
    MagnitudeUp(f, Up, x, r, s0, s1, Units(f, y));
    if r.Finite? { WorthUnits(f, r, x.den); }
  }

  /** Toward zero: the greatest magnitude not above it, never infinite. */
  lemma DownMeans(f: Format, x: Exact, r: DecFloat, s0: set<Flag>, s1: set<Flag>, y: DecFloat)
    requires f.Valid() && x.den > 0 && Rounded(f, Down, x, r, s0, s1) && y.Finite? && y.Fits(f) && y.neg == x.neg
    ensures r.Finite? && r.Fits(f) && r.neg == x.neg
    ensures !x.neg ==> Worth(f, r, x.den) <= x.num && (Worth(f, y, x.den) <= x.num ==> Worth(f, y, x.den) <= Worth(f, r, x.den))
    ensures x.neg ==> 0 - x.num <= Worth(f, r, x.den) && (0 - x.num <= Worth(f, y, x.den) ==> Worth(f, r, x.den) <= Worth(f, y, x.den))
  {
    WorthUnits(f, y, x.den);
    hide Rounded, Units, Nmax, Datum, Worth;
    MagnitudeDown(f, Down, x, r, s0, s1, Units(f, y));
    WorthUnits(f, r, x.den);
  }

  /** The same of magnitudes a and b. */
  lemma Closer(m: Mode, x: Exact, V: nat, even: bool, Y: nat)
    requires NoCloser(m, x, V, even, Y) && (m == HalfUp || m == HalfEven || m == HalfDown)
    ensures var u, w := V * x.den - x.num, Y * x.den - x.num;
      && (if u < 0 then 0 - u else u) <= (if w < 0 then 0 - w else w)
      && (u == 0 - w != 0 ==> if m == HalfUp then u > 0 else if m == HalfDown then u < 0 else even)
  {
    if V < Y { MulLe(V, Y, x.den); } else { MulLe(Y, V, x.den); }
  }

  lemma MidpointIs(f: Format, m: Mode, x: Exact)
    requires f.Valid()
    ensures var twice := (2 * (Pow10(f.pmax) - 1) + 1) * Pow10(f.Top()) * x.den;
      PastMidpoint(f, m, x) <==> 2 * x.num > twice || (2 * x.num == twice && m != HalfDown)
  {
    hide Pow10;
    var a, t := Pow10(f.pmax) - 1, Pow10(f.Top());
    assert (2 * a + 1) * t == 2 * (a * t) + t;
  }

  /** To nearest: no datum is closer; of two equally close ones the larger magnitude, the smaller, or an even coefficient. */
  lemma HalfMeans(f: Format, m: Mode, x: Exact, r: DecFloat, s0: set<Flag>, s1: set<Flag>, y: DecFloat)
    requires f.Valid() && x.den > 0 && Rounded(f, m, x, r, s0, s1) && y.Finite? && y.Fits(f) && y.neg == x.neg
    requires m == HalfUp || m == HalfEven || m == HalfDown
    ensures r == Infinite(x.neg) || (r.Finite? && r.Fits(f) && r.neg == x.neg)
    ensures r.Finite? ==>
      var u, w := Worth(f, r, x.den) - SignedNum(x), Worth(f, y, x.den) - SignedNum(x);
      && (if u < 0 then 0 - u else u) <= (if w < 0 then 0 - w else w)
      && (u == 0 - w != 0 && m == HalfUp ==> if x.neg then u < 0 else u > 0)
      && (u == 0 - w != 0 && m == HalfDown ==> if x.neg then u > 0 else u < 0)
      && (u == 0 - w != 0 && m == HalfEven ==> r.coef % 2 == 0)
    ensures var twice := (2 * (Pow10(f.pmax) - 1) + 1) * Pow10(f.Top()) * x.den;
      r.Infinite? <==> 2 * x.num > twice || (2 * x.num == twice && m != HalfDown)
  {
    hide Rounded, Units, Datum, Worth, Pow10, NoCloser, PastMidpoint;
    WorthUnits(f, y, x.den);
    Nearest(f, m, x, r, s0, s1);
    MidpointIs(f, m, x);
    if r.Finite? {
      WorthUnits(f, r, x.den);
      Closer(m, x, Units(f, r), r.coef % 2 == 0, Units(f, y));
    }
  }

  /** Round-for-reround: never infinite; the largest number from the next power of ten on, and else less than a unit in
      the last place away, cut toward zero unless the last digit would be 0 or 5. */
  lemma ReRoundMeans(f: Format, x: Exact, r: DecFloat, s1: set<Flag>)
    requires f.Valid() && x.den > 0 && Rounded(f, ReRound05, x, r, {}, s1)
    ensures r.Finite? && r.Fits(f) && r.neg == x.neg && (Inexact in s1 ==> r.coef % 5 != 0)
    ensures if x.num >= Pow10(f.pmax + f.Top()) * x.den then r == Finite(x.neg, Pow10(f.pmax) - 1, f.emax - f.pmax + 1)
      else
        var u := r.coef * Pow10(r.exp - f.Qtiny()) * x.den;
        x.num - Pow10(r.exp - f.Qtiny()) * x.den < u < x.num + Pow10(r.exp - f.Qtiny()) * x.den
  {
    hide Pow10, Rounded;
    ReRoundTrace(f, x, r, s1);
    StatusMeaning(f, ReRound05, x, r, s1);
  }

  /** When each flag is set, in every mode; 10^emin is 10^(pmax-1) of the least units. */
  lemma FlagsMean(f: Format, m: Mode, x: Exact, r: DecFloat, s1: set<Flag>)
    requires f.Valid() && x.den > 0 && Rounded(f, m, x, r, {}, s1)
    ensures s1 <= {Inexact, Underflow, Overflow} && (r.Infinite? ==> Inexact in s1 && Overflow in s1)
    ensures r.Finite? ==> r.Fits(f) && (Inexact in s1 <==> Worth(f, r, x.den) != SignedNum(x))
    ensures Underflow in s1 <==> Inexact in s1 && x.num < Pow10(f.pmax - 1) * x.den
    ensures m == Up || m == (if x.neg then Floor else Ceiling) ==>
      (Overflow in s1 <==> x.num > (Pow10(f.pmax) - 1) * Pow10(f.emax - f.emin) * x.den)
    ensures m == Down || m == ReRound05 || m == (if x.neg then Ceiling else Floor) ==>
      (Overflow in s1 <==> x.num >= Pow10(f.pmax + f.emax - f.emin) * x.den)
    ensures m == HalfUp || m == HalfEven || m == HalfDown ==>
      var twice := (2 * (Pow10(f.pmax) - 1) + 1) * Pow10(f.emax - f.emin) * x.den;
      (Overflow in s1 <==> 2 * x.num > twice || (2 * x.num == twice && m != HalfDown))
  {
    hide Rounded, Pow10, PastMidpoint, Units, Worth;
    StatusMeaning(f, m, x, r, s1);
    ResultShape(f, m, x, r, {}, s1);
    MidpointIs(f, m, x);
    if r.Finite? {
      WorthUnits(f, r, x.den);
    }
  }
}
