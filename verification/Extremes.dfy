/** Values far beyond or far below a format's range: how far makes no difference. */
module Extremes {
  import opened Powers
  import opened Formats
  import opened Rounding

  /** Not zero, but less than half of the least quantum. */
  predicate Tiny(x: Exact) {
    0 < 2 * x.num < x.den
  }

  function TinyResult(f: Format, m: Mode, neg: bool): DecFloat {
    var up := m.Up? || m.ReRound05? || (m.Ceiling? && !neg) || (m.Floor? && neg);
    Finite(neg, if up then 1 else 0, f.Qtiny())
  }

  /** A tiny value is rounded at the least quantum, and only there. */
  lemma TinyQuantum(f: Format, x: Exact, j: nat)
    requires f.Valid() && x.den > 0 && Tiny(x)
    ensures Quantum(f, x, j) <==> j == 0
    ensures !IntegralAt(x, j)
  {
    TinyFits(f, x, j);
    TinyFits(f, x, j + 1);
    if j > 0 { TinyFits(f, x, j - 1); }
    hide Pow10;
  }

  lemma TinyFits(f: Format, x: Exact, j: nat)
    requires f.Valid() && x.den > 0 && Tiny(x)
    ensures FitsAt(f, x, j) && !IntegralAt(x, j)
  {
    hide Pow10;
    MulLe(1, Pow10(f.pmax + j), x.den);
    MulLe(1, Pow10(j), x.den);
    DivModUnique(x.num, x.den * Pow10(j), 0, x.num);
  }

  /** Every tiny value of one sign rounds to the same thing. */
  lemma TinyRounds(f: Format, m: Mode, x: Exact, r: DecFloat, s0: set<Flag>, s1: set<Flag>)
    requires f.Valid() && x.den > 0 && Tiny(x)
    ensures Rounded(f, m, x, r, s0, s1) <==> r == TinyResult(f, m, x.neg) && s1 == s0 + {Inexact, Underflow}
  {
    TinyFinish(f, m, x);
    forall j: nat
      ensures Quantum(f, x, j) <==> j == 0
    {
      TinyQuantum(f, x, j);
    }
    hide Finish, Quantum;
    assert Quantum(f, x, 0);
  }

  lemma TinyFinish(f: Format, m: Mode, x: Exact)
    requires f.Valid() && x.den > 0 && Tiny(x)
    ensures Finish(f, m, x, 0) == Outcome(TinyResult(f, m, x.neg), {Inexact, Underflow})
  {
    TinyFits(f, x, 0);
    assert Pow10(0) == 1;
    DivModUnique(x.num, x.den, 0, x.num);
    Pow10Grows(0, f.pmax);
    Pow10Monotone(f.pmax, f.pmax + f.Top());
    MulLe(1, Pow10(f.pmax - 1), x.den);
    hide Pow10;
  }

  lemma ZeroNumerator(f: Format, neg: bool, e: int)
    ensures var x := ExactOf(f, neg, 0, 1, e);
      x.num == 0 && x.neg == neg && x.ideal == e - f.Qtiny()
  {
  }
}
