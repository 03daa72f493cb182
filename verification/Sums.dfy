/** The exact sum of two signed terms, and the sign rule for exact zeros. */
module Sums {
  import opened Powers
  import opened Formats
  import opened Rounding

  /** (-1)^neg * coef * 10^exp. */
  datatype Term = Term(neg: bool, coef: nat, exp: int)

  function Signed(neg: bool, c: nat): int {
    if neg then 0 - c else c
  }

  function Magnitude(v: int): nat {
    if v < 0 then 0 - v else v
  }

  /** The value of a datum in units of 10^e. */
  function SignedUnits(x: DecFloat, e: int): int
    requires x.Finite? && e <= x.exp
  {
    Signed(x.neg, x.coef * Pow10(x.exp - e))
  }

  function Shifted(c: nat, n: nat): nat {
    c * Pow10(n)
  }

  /** The term's coefficient written at the exponent e. */
  function At(t: Term, e: int): nat
    requires e <= t.exp
  {
    Shifted(t.coef, t.exp - e)
  }

  /** The sum, at the smaller of the exponents. */
  function SumOf(a: Term, b: Term): int {
    var e := Min(a.exp, b.exp);
    Signed(a.neg, At(a, e)) + Signed(b.neg, At(b, e))
  }

  /** An exact zero from unlike signs is positive except toward -Infinity (IEEE 754, section 6.3). */
  function SumNeg(m: Mode, a: Term, b: Term): bool {
    var s := SumOf(a, b);
    if s != 0 then s < 0 else if a.neg == b.neg then a.neg else m.Floor?
  }

  /** The exact sum as a value to be rounded; an exact result prefers the smaller exponent. */
  function ExactSum(f: Format, m: Mode, a: Term, b: Term): (x: Exact)
    ensures x.den > 0
  {
    ExactOf(f, SumNeg(m, a, b), Magnitude(SumOf(a, b)), 1, Min(a.exp, b.exp))
  }

  lemma SumCommutes(f: Format, m: Mode, a: Term, b: Term)
    ensures SumOf(a, b) == SumOf(b, a) && ExactSum(f, m, a, b) == ExactSum(f, m, b, a)
  {
  }
}
