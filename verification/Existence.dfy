/** Correct rounding is total: every exact value has a result, and what a value beyond the
    format's range becomes does not depend on how far beyond it is. */
module Existence {
  import opened Powers
  import opened Formats
  import opened Rounding
  import opened Meaning

  lemma {:induction false} PowerAbove(n: nat)
    ensures Pow10(n) > n
  {
    if n > 0 { PowerAbove(n - 1); }
  }

  /** Some exponent is coarse enough. */
  lemma SomeFit(f: Format, x: Exact) returns (j: nat)
    requires x.den > 0
    ensures FitsAt(f, x, j)
  {
    j := x.num;
    PowerAbove(j);
    Pow10Monotone(j, f.pmax + j);
    MulLe(1, x.den, Pow10(f.pmax + j));
  }

  /** The finest exponent the value fits at, looking down from one where it does. */
  lemma {:induction false} LeastFit(f: Format, x: Exact, i: nat) returns (j: nat)
    requires x.den > 0 && FitsAt(f, x, i)
    ensures FitsAt(f, x, j) && (j == 0 || !FitsAt(f, x, j - 1))
    decreases i
  {
    if i > 0 && FitsAt(f, x, i - 1) {
      j := LeastFit(f, x, i - 1);
    } else {
      j := i;
    }
  }

  /** From an exponent where the value is an integer, up towards the ideal while it stays one. */
  lemma {:induction false} TowardIdeal(f: Format, x: Exact, i: nat) returns (j: nat)
    requires x.den > 0 && FitsAt(f, x, i) && IntegralAt(x, i) && i <= x.ideal
    ensures Quantum(f, x, j)
    decreases x.ideal - i
  {
    if i < x.ideal && IntegralAt(x, i + 1) {
      FitsGrows(f, x, i, i + 1);
      j := TowardIdeal(f, x, i + 1);
    } else {
      j := i;
    }
  }

  /** Every exact value has an exponent to be rounded at. */
  lemma QuantumExists(f: Format, x: Exact) returns (j: nat)
    requires x.den > 0
    ensures Quantum(f, x, j)
  {
    var i := SomeFit(f, x);
    j := LeastFit(f, x, i);
    if j < x.ideal && IntegralAt(x, j + 1) {
      FitsGrows(f, x, j, j + 1);
      j := TowardIdeal(f, x, j + 1);
    }
  }

  /** There is a correctly rounded result for every value, mode and pending status. */
  lemma RoundedTotal(f: Format, m: Mode, x: Exact, s0: set<Flag>)
    requires f.Valid() && x.den > 0
    ensures exists r: DecFloat, s1: set<Flag> :: Rounded(f, m, x, r, s0, s1)
  {
    var j := QuantumExists(f, x);
    assert Rounded(f, m, x, Finish(f, m, x, j).df, s0, s0 + Finish(f, m, x, j).flags);
  }

  // ---- values beyond the range ----

  /** The magnitude is at least ten to the power emax+1. */
  predicate Huge(f: Format, x: Exact)
    requires f.Valid()
  {
    x.num >= Pow10(f.pmax + f.Top()) * x.den
  }

  /** The rounded significand of a huge value is huge. */
  lemma HugeSignificand(f: Format, m: Mode, x: Exact, j: nat)
    requires f.Valid() && x.den > 0 && Huge(f, x) && Quantum(f, x, j)
    ensures Significand(m, x, j) * Pow10(j) >= Pow10(f.pmax + f.Top())
    ensures RoundFlags(f, x, j) <= {Inexact}
  {
    hide Pow10, Significand, Truncates, Quantum, IntegralAt;
    Pow10Monotone(f.pmax - 1, f.pmax + f.Top());
    MulLe(Pow10(f.pmax - 1), Pow10(f.pmax + f.Top()), x.den);
    HugeOverflows(f, m, x, j);
  }

  /** Every huge value of one sign rounds to the same thing. */
  lemma HugeRounds(f: Format, m: Mode, x: Exact, r: DecFloat, s0: set<Flag>, s1: set<Flag>)
    requires f.Valid() && x.den > 0 && Huge(f, x)
    ensures Rounded(f, m, x, r, s0, s1) <==> r == Overflowed(f, m, x.neg) && s1 == s0 + {Overflow, Inexact}
  {
    forall j: nat | Quantum(f, x, j)
      ensures Finish(f, m, x, j).df == Overflowed(f, m, x.neg) && Finish(f, m, x, j).flags == {Overflow, Inexact}
    {
      HugeSignificand(f, m, x, j);
      FinishKeeps(f, m, x, j);
    }
    var j := QuantumExists(f, x);
  }
}
