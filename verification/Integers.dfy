/** Rounding an integer coefficient: the specification in terms of digits dropped. */
module Integers {
  import opened Powers
  import opened Formats
  import opened Rounding
  import opened Sticky

  /** At exponent q not below e, the exact value n/d*10^e is n against d*10^(q-e). */
  lemma Coarser(f: Format, neg: bool, n: nat, d: nat, e: int, q: int) returns (t: nat)
    requires d > 0 && q >= e && q >= f.Qtiny()
    ensures var x := ExactOf(f, neg, n, d, e);
      t > 0 && x.num == n * t && x.den * Pow10(q - f.Qtiny()) == d * Pow10(q - e) * t
  {
    if e >= f.Qtiny() {
      t := Pow10(e - f.Qtiny());
      Pow10Add(q - e, e - f.Qtiny());
      MulAssoc(d, Pow10(q - e), t);
    } else {
      t := 1;
      Pow10Add(f.Qtiny() - e, q - f.Qtiny());
      MulAssoc(d, Pow10(f.Qtiny() - e), Pow10(q - f.Qtiny()));
    }
  }

  /** At exponent q below e, it is n*10^(e-q) against d. */
  lemma Finer(f: Format, neg: bool, n: nat, d: nat, e: int, q: int) returns (t: nat)
    requires d > 0 && e >= q >= f.Qtiny()
    ensures var x := ExactOf(f, neg, n, d, e);
      t > 0 && x.num == n * Pow10(e - q) * t && x.den * Pow10(q - f.Qtiny()) == d * t
  {
    t := Pow10(q - f.Qtiny());
    Pow10Add(e - q, q - f.Qtiny());
    MulAssoc(n, Pow10(e - q), t);
  }

  /** The comparison behind FitsAt, with the shared factor removed. */
  lemma FitsCoarser(f: Format, neg: bool, n: nat, d: nat, e: int, q: int)
    requires d > 0 && q >= e && q >= f.Qtiny()
    ensures FitsAt(f, ExactOf(f, neg, n, d, e), q - f.Qtiny()) <==> n < d * Pow10(q - e) * Pow10(f.pmax)
  {
    var x := ExactOf(f, neg, n, d, e);
    var t := Coarser(f, neg, n, d, e, q);
    Pow10Add(f.pmax, q - f.Qtiny());
    FitsFactor(x.num, x.den, Pow10(q - f.Qtiny()), Pow10(f.pmax), n, d * Pow10(q - e), t);
  }

  lemma FitsFinerEqual(f: Format, neg: bool, n: nat, d: nat, e: int, q: int)
    requires d > 0 && e >= q >= f.Qtiny()
    ensures FitsAt(f, ExactOf(f, neg, n, d, e), q - f.Qtiny()) <==> n * Pow10(e - q) < d * Pow10(f.pmax)
  {
    var x := ExactOf(f, neg, n, d, e);
    var t := Finer(f, neg, n, d, e, q);
    Pow10Add(f.pmax, q - f.Qtiny());
    FitsFactor(x.num, x.den, Pow10(q - f.Qtiny()), Pow10(f.pmax), n * Pow10(e - q), d, t);
  }

  lemma FitsFactor(num: nat, den: nat, p: nat, P: nat, a: nat, b: nat, t: nat)
    requires t > 0 && num == a * t && den * p == b * t
    ensures num < den * (P * p) <==> a < b * P
  {
    calc {
      den * (P * p);
      { MulAssoc(den, p, P); }
      den * p * P;
      b * t * P;
      { Swap(b, t, P); }
      b * P * t;
    }
    if a < b * P { MulLt(a, b * P, t); } else { MulLe(b * P, a, t); }
  }

  /** Rounding at exponent q is rounding n/(d*10^(q-e)), and it is exact when that is. */
  lemma RoundCoarser(f: Format, m: Mode, neg: bool, n: nat, d: nat, e: int, q: int)
    requires d > 0 && q >= e && q >= f.Qtiny()
    ensures d * Pow10(q - e) > 0
    ensures var x := ExactOf(f, neg, n, d, e);
      && x.den * Pow10(q - f.Qtiny()) > 0
      && RoundInt(m, neg, x.num, x.den * Pow10(q - f.Qtiny())) == RoundInt(m, neg, n, d * Pow10(q - e))
      && (IntegralAt(x, q - f.Qtiny()) <==> n % (d * Pow10(q - e)) == 0)
  {
    MulLt(0, d, Pow10(q - e));
    var x := ExactOf(f, neg, n, d, e);
    var t := Coarser(f, neg, n, d, e, q);
    RoundIntScale(m, neg, n, d * Pow10(q - e), t);
    DivModScale(n, d * Pow10(q - e), t);
    ZeroTimes(n % (d * Pow10(q - e)), t);
  }

  lemma ZeroTimes(r: nat, t: nat)
    requires t > 0
    ensures r * t == 0 <==> r == 0
  {
    if r > 0 { MulLt(0, r, t); }
  }

  /** The number of low digits decFinalize must drop from an integer coefficient. */
  function Drop(f: Format, digits: nat, e: int): int {
    Max(digits - f.pmax, f.Qtiny() - e)
  }

  /** Dropping that many digits rounds at the specified exponent. */
  lemma DropIsQuantum(f: Format, neg: bool, c: nat, e: int, len: nat)
    requires f.Valid() && len >= 1 && c < Pow10(len) && (len == 1 || Pow10(len - 1) <= c)
    ensures var drop := Max(0, Drop(f, len, e));
      Quantum(f, ExactOf(f, neg, c, 1, e), e + drop - f.Qtiny())
  {
    var drop := Max(0, Drop(f, len, e));
    var q := e + drop;
    var x := ExactOf(f, neg, c, 1, e);
    FitsCoarser(f, neg, c, 1, e, q);
    Pow10Add(drop, f.pmax);
    Pow10Monotone(len, drop + f.pmax);
    if Drop(f, len, e) <= 0 {
      RoundCoarser(f, Down, neg, c, 1, e, e);
      assert c % 1 == 0;
    } else if q > f.Qtiny() {
      FitsCoarser(f, neg, c, 1, e, q - 1);
      Pow10Add(drop - 1, f.pmax);
    }
  }

  /** What decFinalize does with the digits, as arithmetic. */
  lemma DropRounds(f: Format, m: Mode, neg: bool, c: nat, e: int, len: nat)
    requires f.Valid() && len >= 1 && c < Pow10(len) && (len == 1 || Pow10(len - 1) <= c)
    ensures var drop := Max(0, Drop(f, len, e));
      var x, j := ExactOf(f, neg, c, 1, e), e + drop - f.Qtiny();
      && Quantum(f, x, j)
      && (IntegralAt(x, j) <==> c % Pow10(drop) == 0)
      && Finish(f, m, x, j) ==
         (var k := RoundInt(m, neg, c, Pow10(drop));
          if k == Pow10(f.pmax) then Clamp(f, m, neg, Pow10(f.pmax - 1), j + 1, RoundFlags(f, x, j))
          else Clamp(f, m, neg, k, j, RoundFlags(f, x, j)))
  {
    hide Pow10, Quantum, RoundInt, Clamp, RoundFlags, IntegralAt;
    DropIsQuantum(f, neg, c, e, len);
    var drop := Max(0, Drop(f, len, e));
    RoundCoarser(f, m, neg, c, 1, e, e + drop);
  }

  /** Tiny before rounding: the adjusted exponent is below emin. */
  lemma TinyByExponent(f: Format, neg: bool, c: nat, e: int, len: nat)
    requires f.Valid() && c < Pow10(len) && len >= 1 && Pow10(len - 1) <= c
    ensures var x := ExactOf(f, neg, c, 1, e);
      x.num < x.den * Pow10(f.pmax - 1) <==> e + len - 1 < f.emin
  {
    var u := f.Qtiny();
    if e >= u {
      Pow10Add(len, e - u);
      MulLt(c, Pow10(len), Pow10(e - u));
      Pow10Add(len - 1, e - u);
      MulLe(Pow10(len - 1), c, Pow10(e - u));
      if e + len - 1 < f.emin {
        Pow10Monotone(len + (e - u), f.pmax - 1);
      } else {
        Pow10Monotone(f.pmax - 1, len - 1 + (e - u));
      }
    } else {
      Pow10Add(u - e, f.pmax - 1);
      if e + len - 1 < f.emin {
        Pow10Monotone(len, u - e + f.pmax - 1);
      } else {
        Pow10Monotone(u - e + f.pmax - 1, len - 1);
      }
    }
  }

  lemma DigitsReach(c: nat)
    ensures NumDigits(c) == 1 || Pow10(NumDigits(c) - 1) <= c
  {
  }

  lemma NothingDropped(m: Mode, neg: bool, c: nat)
    ensures c % Pow10(0) == 0 && RoundInt(m, neg, c, Pow10(0)) == c
  {
    assert Pow10(0) == 1 && c % 1 == 0;
  }

  /** Nothing is dropped from a coefficient that fits at its own exponent. */
  lemma ExactFinish(f: Format, m: Mode, neg: bool, c: nat, e: int)
    requires f.Valid() && c < Pow10(f.pmax) && f.Qtiny() <= e <= f.Qmax()
    ensures var x, j := ExactOf(f, neg, c, 1, e), e - f.Qtiny();
      Quantum(f, x, j) && Finish(f, m, x, j) == Outcome(Finite(neg, c, e), {})
  {
    hide Pow10, NumDigits, ExactOf, Quantum, Finish, RoundInt, Clamp;
    var x, len, j := ExactOf(f, neg, c, 1, e), NumDigits(c), e - f.Qtiny();
    DigitsReach(c);
    if len > f.pmax { Pow10Monotone(f.pmax, len - 1); }
    DropRounds(f, m, neg, c, e, len);
    NothingDropped(m, neg, c);
    ClampFits(f, m, neg, c, j, RoundFlags(f, x, j));
  }

  /** A coefficient that fits, at an exponent the format has, is returned as it is. */
  lemma ExactFits(f: Format, m: Mode, neg: bool, c: nat, e: int, r: DecFloat, s0: set<Flag>, s1: set<Flag>)
    requires f.Valid() && c < Pow10(f.pmax) && f.Qtiny() <= e <= f.Qmax()
    requires Rounded(f, m, ExactOf(f, neg, c, 1, e), r, s0, s1)
    ensures r == Finite(neg, c, e) && s1 == s0
  {
    hide Pow10, Quantum, Finish;
    var x := ExactOf(f, neg, c, 1, e);
    var j: nat :| Quantum(f, x, j) && r == Finish(f, m, x, j).df && s1 == s0 + Finish(f, m, x, j).flags;
    ExactFinish(f, m, neg, c, e);
    QuantumUnique(f, x, j, e - f.Qtiny());
  }

  /** Returning it is correct rounding. */
  lemma ExactRounds(f: Format, m: Mode, neg: bool, c: nat, e: int, s: set<Flag>)
    requires f.Valid() && c < Pow10(f.pmax) && f.Qtiny() <= e <= f.Qmax()
    ensures Rounded(f, m, ExactOf(f, neg, c, 1, e), Finite(neg, c, e), s, s)
  {
    hide Pow10, ExactOf, Quantum, Finish;
    ExactFinish(f, m, neg, c, e);
    assert Quantum(f, ExactOf(f, neg, c, 1, e), e - f.Qtiny());
  }

  lemma ClampFits(f: Format, m: Mode, neg: bool, c: nat, j: nat, flags: set<Flag>)
    requires f.Valid() && c < Pow10(f.pmax) && j <= f.Top()
    ensures Clamp(f, m, neg, c, j, flags) == Outcome(Finite(neg, c, f.Qtiny() + j), flags)
  {
    hide Pow10;
    Pow10Add(f.pmax, j);
    MulLt(c, Pow10(f.pmax), Pow10(j));
    Pow10Monotone(f.pmax + j, f.pmax + f.Top());
  }
}
