/** What "the exact result, rounded once" means, stated without any of the code's digit buffers. */
module Rounding {
  import opened Powers
  import opened Formats

  /** Whether the residue r of a division by d sends the quotient q away from zero. */
  predicate Away(m: Mode, neg: bool, q: nat, r: nat, d: nat) {
    match m
    case Ceiling => !neg
    case Up => true
    case HalfUp => 2 * r >= d
    case HalfEven => 2 * r > d || (2 * r == d && q % 2 == 1)
    case HalfDown => 2 * r > d
    case Down => false
    case Floor => neg
    case ReRound05 => q % 10 == 0 || q % 10 == 5
  }

  /** n/d rounded to an integer. */
  function RoundInt(m: Mode, neg: bool, n: nat, d: nat): nat
    requires d > 0
  {
    if n % d != 0 && Away(m, neg, n / d, n % d, d) then n / d + 1 else n / d
  }

  /** The exact value (-1)^neg * num/den, counted in units of the format's least
      quantum 10^Qtiny, together with the exponent an exact result would like. */
  datatype Exact = Exact(neg: bool, num: nat, den: nat, ideal: int)

  /** n/d * 10^e as an exact value of the format. */
  function ExactOf(f: Format, neg: bool, n: nat, d: nat, e: int): (x: Exact)
    requires d > 0
    ensures x.den > 0
  {
    if e >= f.Qtiny() then Exact(neg, n * Pow10(e - f.Qtiny()), d, e - f.Qtiny())
    else
      MulLt(0, d, Pow10(f.Qtiny() - e));
      Exact(neg, n, d * Pow10(f.Qtiny() - e), e - f.Qtiny())
  }

  // In the rest of the module an exponent j counts from Qtiny: 0 <= j <= f.Top().

  /** The integer part at exponent j has at most pmax digits. */
  predicate FitsAt(f: Format, x: Exact, j: nat) {
    x.num < x.den * Pow10(f.pmax + j)
  }

  /** The value is an integer multiple of 10^j. */
  predicate IntegralAt(x: Exact, j: nat)
    requires x.den > 0
  {
    MulLt(0, x.den, Pow10(j));
    x.num % (x.den * Pow10(j)) == 0
  }

  /** j is the exponent the value is rounded at: as close to the ideal exponent as an
      exact representation allows, and the finest available one when none is exact. */
  predicate Quantum(f: Format, x: Exact, j: nat)
    requires x.den > 0
  {
    && FitsAt(f, x, j)
    && (j == 0 || !FitsAt(f, x, j - 1) || (IntegralAt(x, j) && j <= x.ideal))
    && (j >= x.ideal || !IntegralAt(x, j + 1))
  }

  datatype Outcome = Outcome(df: DecFloat, flags: set<Flag>)

  /** Infinity or the largest finite number, by mode and sign. */
  function Overflowed(f: Format, m: Mode, neg: bool): DecFloat {
    if m.Down? || m.ReRound05? || (m.Ceiling? && neg) || (m.Floor? && !neg)
    then Finite(neg, Pow10(f.pmax) - 1, f.Qmax())
    else Infinite(neg)
  }

  /** A rounded coefficient k at exponent j brought into the format's range. */
  function Clamp(f: Format, m: Mode, neg: bool, k: nat, j: nat, flags: set<Flag>): Outcome
    requires f.Valid()
  {
    if k == 0 then Outcome(Finite(neg, 0, f.Qtiny() + Min(j, f.Top())), flags)
    else if k * Pow10(j) >= Pow10(f.pmax + f.Top()) then
      Outcome(Overflowed(f, m, neg), flags + {Overflow, Inexact})
    else if j > f.Top() then
      Outcome(Finite(neg, k * Pow10(j - f.Top()), f.Qmax()), flags)
    else Outcome(Finite(neg, k, f.Qtiny() + j), flags)
  }

  function Min(a: int, b: int): int {
    if a <= b then a else b
  }

  function Max(a: int, b: int): int {
    if a <= b then b else a
  }

  /** Flags of rounding alone: tininess is judged before rounding. */
  function RoundFlags(f: Format, x: Exact, j: nat): set<Flag>
    requires f.Valid() && x.den > 0
  {
    if IntegralAt(x, j) then {}
    else if x.num < x.den * Pow10(f.pmax - 1) then {Inexact, Underflow}
    else {Inexact}
  }

  /** The result of rounding x at exponent j. */
  function Finish(f: Format, m: Mode, x: Exact, j: nat): Outcome
    requires f.Valid() && x.den > 0
  {
    MulLt(0, x.den, Pow10(j));
    var k := RoundInt(m, x.neg, x.num, x.den * Pow10(j));
    if k == Pow10(f.pmax) then Clamp(f, m, x.neg, Pow10(f.pmax - 1), j + 1, RoundFlags(f, x, j))
    else Clamp(f, m, x.neg, k, j, RoundFlags(f, x, j))
  }

  /** r is x correctly rounded, and the status went from s0 to s1. */
  ghost predicate Rounded(f: Format, m: Mode, x: Exact, r: DecFloat, s0: set<Flag>, s1: set<Flag>)
    requires f.Valid() && x.den > 0
  {
    exists j: nat :: Quantum(f, x, j) && r == Finish(f, m, x, j).df && s1 == s0 + Finish(f, m, x, j).flags
  }

  // ---- the specification determines one result ----

  lemma FitsGrows(f: Format, x: Exact, i: nat, j: nat)
    requires i <= j && FitsAt(f, x, i)
    ensures FitsAt(f, x, j)
  {
    Pow10Monotone(f.pmax + i, f.pmax + j);
    MulLe(Pow10(f.pmax + i), Pow10(f.pmax + j), x.den);
  }

  lemma IntegralShrinks(x: Exact, i: nat, j: nat)
    requires x.den > 0 && i <= j && IntegralAt(x, j)
    ensures IntegralAt(x, i)
  {
    MulLt(0, x.den, Pow10(j));
    MulLt(0, x.den, Pow10(i));
    var q := x.num / (x.den * Pow10(j));
    assert x.num == q * (x.den * Pow10(j));
    Pow10Split(i, j);
    calc {
      q * (x.den * Pow10(j));
      q * (x.den * (Pow10(i) * Pow10(j - i)));
      { MulAssoc(x.den, Pow10(i), Pow10(j - i)); }
      q * (x.den * Pow10(i) * Pow10(j - i));
      { MulAssoc(q, Pow10(j - i), x.den * Pow10(i)); }
      q * Pow10(j - i) * (x.den * Pow10(i));
    }
    DivModUnique(x.num, x.den * Pow10(i), q * Pow10(j - i), 0);
  }

  /** At most one exponent qualifies. */
  lemma QuantumUnique(f: Format, x: Exact, i: nat, j: nat)
    requires x.den > 0 && Quantum(f, x, i) && Quantum(f, x, j)
    ensures i == j
  {
    if i < j {
      QuantumNotBelow(f, x, i, j);
    } else if j < i {
      QuantumNotBelow(f, x, j, i);
    }
  }

  lemma QuantumNotBelow(f: Format, x: Exact, i: nat, j: nat)
    requires x.den > 0 && i < j
    ensures !(Quantum(f, x, i) && Quantum(f, x, j))
  {
    if Quantum(f, x, i) && Quantum(f, x, j) {
      FitsGrows(f, x, i, j - 1);
      IntegralShrinks(x, i + 1, j);
    }
  }

  /** The flags raised do not depend on those that were set before. */
  lemma RoundedFrom(f: Format, m: Mode, x: Exact, r: DecFloat, s0: set<Flag>, s1: set<Flag>) returns (flags: set<Flag>)
    requires f.Valid() && x.den > 0 && Rounded(f, m, x, r, s0, s1)
    ensures s1 == s0 + flags && forall s: set<Flag> :: Rounded(f, m, x, r, s, s + flags)
  {
    hide Quantum, Finish;
    var j: nat :| Quantum(f, x, j) && r == Finish(f, m, x, j).df && s1 == s0 + Finish(f, m, x, j).flags;
    flags := Finish(f, m, x, j).flags;
  }

  /** Correct rounding leaves no freedom: result and status are functions of the exact value. */
  lemma RoundedUnique(f: Format, m: Mode, x: Exact, r: DecFloat, r': DecFloat, s0: set<Flag>, s: set<Flag>, s': set<Flag>)
    requires f.Valid() && x.den > 0
    requires Rounded(f, m, x, r, s0, s) && Rounded(f, m, x, r', s0, s')
    ensures r == r' && s == s'
  {
    var i: nat :| Quantum(f, x, i) && r == Finish(f, m, x, i).df && s == s0 + Finish(f, m, x, i).flags;
    var j: nat :| Quantum(f, x, j) && r' == Finish(f, m, x, j).df && s' == s0 + Finish(f, m, x, j).flags;
    QuantumUnique(f, x, i, j);
  }
}
