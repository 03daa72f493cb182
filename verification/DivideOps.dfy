/** decFloatDivide, DivideInteger, Remainder and RemainderNear on any operands. */
module DivideOps {
  import opened Powers
  import opened Digits
  import opened Formats
  import opened Rounding
  import opened Meaning
  import opened Integers
  import opened StandIns
  import opened Specials
  import opened Finalize
  import opened QuotientLayout
  import opened QuotientNumber
  import opened IntegerQuotient
  import opened Division
  import opened Multiply
  import opened Sums
  import opened Fma
  import opened Remainders

  datatype DivOp = Divide | DivideInteger | Remainder | RemainderNear {
    predicate Rem() {
      Remainder? || RemainderNear?
    }
  }

  /** What each operation promises for a finite dividend and a finite non-zero divisor. */
  ghost predicate Divided(f: Format, m: Mode, op: DivOp, x: DecFloat, y: DecFloat, r: DecFloat, s0: set<Flag>, s1: set<Flag>)
    requires Divisible(f, x, y)
  {
    if op.Divide? then
      Rounded(f, m, ExactOf(f, x.neg != y.neg, x.coef, y.coef, x.exp - y.exp), r, s0, s1)
    else if IntQuotient(false, x, y) >= Pow10(f.pmax) then
      r == DEFAULT_NAN && s1 == s0 + {DivisionImpossible}
    else if op.DivideInteger? then
      r == Finite(x.neg != y.neg, IntQuotient(false, x, y), 0) && s1 == s0
    else
      r == RemainderOf(op.RemainderNear?, x, y) && s1 == s0
  }

  /** A one-digit zero, finished. */
  method FinalizeZero(f: Format, neg: bool, exponent: int, set_: Context) returns (r: DecFloat)
    requires f.Valid() && exponent < MIN_SPECIAL
    modifies set_`status
    ensures Rounded(f, set_.round, ExactOf(f, neg, 0, 1, exponent), r, old(set_.status), set_.status)
  {
    var bcdacc := new nat[1];
    bcdacc[0] := 0;
    assert bcdacc[0..1] == [0];
    DecOne(0);
    var num := new BcdNum(bcdacc, 0, 0, neg, exponent);
    hide Rounded, ExactOf;
    r := DecFinalize(f, num, set_);
  }

  /** Zero divided by anything but zero. */
  method ZeroDividend(f: Format, dfl: DecFloat, dfr: DecFloat, set_: Context, op: DivOp) returns (r: DecFloat)
    requires Divisible(f, dfl, dfr) && dfl.coef == 0
    modifies set_`status
    ensures Divided(f, set_.round, op, dfl, dfr, r, old(set_.status), set_.status)
  {
    ZeroQuotient(dfl, dfr);
    hide Rounded, ExactOf;
    if op.DivideInteger? {
      return Finite(dfl.neg != dfr.neg, 0, 0);
    }
    var neg, exponent := dfl.neg != dfr.neg, dfl.exp - dfr.exp;
    if !op.Divide? {
      neg, exponent := dfl.neg, Min(dfl.exp, dfr.exp);
    }
    r := FinalizeZero(f, neg, exponent, set_);
    if op.Divide? {
      ZeroOver(f, set_.round, neg, dfr.coef, exponent, r, old(set_.status), set_.status);
    } else {
      ExactFits(f, set_.round, neg, 0, exponent, r, old(set_.status), set_.status);
    }
  }

  lemma ZeroQuotient(x: DecFloat, y: DecFloat)
    requires x.Finite? && x.coef == 0 && y.Finite? && y.coef > 0
    ensures LeftUnits(x, y) == 0
    ensures forall near: bool :: IntQuotient(near, x, y) == 0 && RemainderOf(near, x, y) == Finite(x.neg, 0, Min(x.exp, y.exp))
  {
    var D := RightUnits(x, y);
    DivModUnique(0, D, 0, 0);
    assert 0 * D == 0;
  }

  lemma ZeroOver(f: Format, m: Mode, neg: bool, d: nat, e: int, r: DecFloat, s0: set<Flag>, s1: set<Flag>)
    requires f.Valid() && d > 0 && Rounded(f, m, ExactOf(f, neg, 0, 1, e), r, s0, s1)
    ensures Rounded(f, m, ExactOf(f, neg, 0, d, e), r, s0, s1)
  {
    hide Rounded;
    assert forall t: nat :: 0 * t == 0;
    RoundedCross(f, m, ExactOf(f, neg, 0, d, e), ExactOf(f, neg, 0, 1, e), r, s0, s1);
  }

  /** The integer quotient laid out, for DivideInteger and on the way to a remainder. */
  method IntegerResult(f: Format, num: BcdNum, set_: Context, ghost n: nat) returns (r: DecFloat)
    requires Compiled(f) && num.Valid() && num.exponent == 0 && num.Coefficient() == n < Pow10(f.pmax)
    modifies num`exponent, num.buf, set_`status
    ensures r == Finite(num.neg, n, 0) && set_.status == old(set_.status)
  {
    hide Rounded, ExactOf, Dec, Pow10;
    r := DecFinalize(f, num, set_);
    ExactFits(f, set_.round, num.neg, n, 0, r, old(set_.status), set_.status);
  }

  /** Multiplies back and subtracts. */
  method FinishRemainder(f: Format, quotient: DecFloat, dfl: DecFloat, dfr: DecFloat, set_: Context, near: bool)
    returns (r: DecFloat)
    requires Divisible(f, dfl, dfr) && IntQuotient(near, dfl, dfr) < Pow10(f.pmax)
    requires quotient == Finite(dfl.neg != dfr.neg, IntQuotient(near, dfl, dfr), 0)
    modifies set_`status
    ensures r == RemainderOf(near, dfl, dfr) && set_.status == old(set_.status)
  {
    var negated := Finite(!quotient.neg, quotient.coef, quotient.exp);
    assert negated == NegatedQuotient(near, dfl, dfr);
    NoOverlap(f, near, dfl, dfr);
    RemainderSum(f, set_.round, near, dfl, dfr);
    RemainderFits(f, near, dfl, dfr);
    hide Rounded, ExactOf, ExactSum, Pow10, IntQuotient, Overlaps, Product, Addend;
    r := DecFloatFMA(f, negated, dfr, dfl, set_);
    ghost var rem := RemainderOf(near, dfl, dfr);
    ExactFits(f, set_.round, if rem.coef == 0 then set_.round.Floor? else rem.neg, rem.coef, rem.exp, r,
              old(set_.status), set_.status);
    if r.coef == 0 {
      r := Finite(dfl.neg, r.coef, r.exp);
      ZeroRemainderSign(near, dfl, dfr);
    }
  }

  lemma ZeroRemainderSign(near: bool, x: DecFloat, y: DecFloat)
    requires x.Finite? && y.Finite? && y.coef > 0
    ensures RemainderOf(near, x, y).coef == 0 ==> RemainderOf(near, x, y).neg == x.neg
  {
  }

  /** Both operands finite and not zero. */
  method DivideFinite(f: Format, dfl: DecFloat, dfr: DecFloat, set_: Context, op: DivOp) returns (r: DecFloat)
    requires Divisible(f, dfl, dfr) && dfl.coef > 0
    modifies set_`status
    ensures Divided(f, set_.round, op, dfl, dfr, r, old(set_.status), set_.status)
  {
    var e, near := dfl.exp - dfr.exp, op.RemainderNear?;
    hide Rounded, ExactOf, Pow10, Stands, LaidOut, Dec, IntegerOf, NumDigits;
    var num, inexact := MakeQuotient(f, dfl.coef, dfr.coef, e, dfl.neg != dfr.neg);
    if op.Divide? {
      ghost var c, e' := num.Coefficient(), num.exponent;
      r := DecFinalize(f, num, set_);
      QuotientRounds(f, set_.round, num.neg, dfl.coef, dfr.coef, e, c, e', inexact, r, old(set_.status), set_.status);
      return;
    }
    QuotientLength(f, num, dfl, dfr, inexact);
    if num.lsd - num.msd + 1 + num.exponent > f.pmax {
      set_.status := set_.status + {DivisionImpossible};
      return DEFAULT_NAN;
    }
    MakeInteger(f, num, near, dfl.coef, dfr.coef, e, inexact);
    if near {
      NearFits(f, dfl, dfr);
    }
    r := IntegerResult(f, num, set_, IntQuotient(near, dfl, dfr));
    if op.Rem() {
      r := FinishRemainder(f, r, dfl, dfr, set_, near);
    }
  }

  lemma QuotientLength(f: Format, num: BcdNum, dfl: DecFloat, dfr: DecFloat, inexact: bool)
    requires Divisible(f, dfl, dfr) && num.Valid() && LaidOut(num.buf[..], num.msd, num.lsd, num.Coefficient())
    requires Stands(f, dfl.coef, dfr.coef, dfl.exp - dfr.exp, num.Coefficient(), num.exponent, inexact)
    ensures num.lsd - num.msd + 1 + num.exponent > f.pmax <==> IntQuotient(false, dfl, dfr) >= Pow10(f.pmax)
  {
    hide Pow10, Stands, Dec;
    TooLong(f, dfl.coef, dfr.coef, dfl.exp - dfr.exp, num.buf[num.msd..num.lsd + 1], num.exponent, inexact);
  }

  /** An operand is a NaN or infinite. */
  method DivideSpecial(f: Format, dfl: DecFloat, dfr: DecFloat, set_: Context, op: DivOp) returns (r: DecFloat)
    requires !dfl.Finite? || !dfr.Finite?
    modifies set_`status
    ensures SpecialQuotient(f, op, dfl, dfr, r, old(set_.status), set_.status)
  {
    if dfl.NaN? || dfr.NaN? {
      r := DecNaNs(dfl, dfr, set_);
    } else if dfl.Infinite? {
      if dfr.Infinite? || op.Rem() {
        r := DecInvalid(set_);
      } else {
        r := Infinite(dfl.neg != dfr.neg);
      }
    } else if op.Rem() {
      r := dfl;
    } else {
      r := Finite(dfl.neg != dfr.neg, 0, if op.DivideInteger? then 0 else f.Qtiny());
    }
  }

  /** Quotients and remainders with a NaN or an infinity (IEEE 754, sections 6.1, 6.2 and 7.2). */
  predicate SpecialQuotient(f: Format, op: DivOp, x: DecFloat, y: DecFloat, r: DecFloat, s0: set<Flag>, s1: set<Flag>) {
    if x.NaN? || y.NaN? then r == Propagated(x, y) && s1 == s0 + NaNFlags(x, y)
    else if x.Infinite? && (y.Infinite? || op.Rem()) then r == DEFAULT_NAN && s1 == s0 + {InvalidOperation}
    else if x.Infinite? then r == Infinite(x.neg != y.neg) && s1 == s0
    else if op.Rem() then r == x && s1 == s0
    else r == Finite(x.neg != y.neg, 0, if op.DivideInteger? then 0 else f.Qtiny()) && s1 == s0
  }

  /** Division by a zero. */
  predicate ZeroDivisor(op: DivOp, x: DecFloat, y: DecFloat, r: DecFloat, s0: set<Flag>, s1: set<Flag>) {
    if x.IsZero() then r == DEFAULT_NAN && s1 == s0 + {DivisionUndefined}
    else if op.Rem() then r == DEFAULT_NAN && s1 == s0 + {InvalidOperation}
    else r == Infinite(x.neg != y.neg) && s1 == s0 + {DivisionByZero}
  }

  /** decDivide: one body for four operations. */
  method DecDivide(f: Format, dfl: DecFloat, dfr: DecFloat, set_: Context, op: DivOp) returns (r: DecFloat)
    requires Compiled(f) && dfl.Fits(f) && dfr.Fits(f)
    modifies set_`status
    ensures !dfl.Finite? || !dfr.Finite? ==> SpecialQuotient(f, op, dfl, dfr, r, old(set_.status), set_.status)
    ensures dfl.Finite? && dfr.IsZero() ==> ZeroDivisor(op, dfl, dfr, r, old(set_.status), set_.status)
    ensures dfl.Finite? && dfr.Finite? && !dfr.IsZero() ==>
      Divided(f, set_.round, op, dfl, dfr, r, old(set_.status), set_.status)
  {
    hide Divided;
    if !dfl.Finite? || !dfr.Finite? {
      r := DivideSpecial(f, dfl, dfr, set_, op);
    } else if dfr.IsZero() {
      if dfl.IsZero() {
        set_.status := set_.status + {DivisionUndefined};
        r := DEFAULT_NAN;
      } else if op.Rem() {
        r := DecInvalid(set_);
      } else {
        set_.status := set_.status + {DivisionByZero};
        r := Infinite(dfl.neg != dfr.neg);
      }
    } else if dfl.IsZero() {
      r := ZeroDividend(f, dfl, dfr, set_, op);
    } else {
      r := DivideFinite(f, dfl, dfr, set_, op);
    }
  }

  // ---- what the four operations promise together ----

  /** x = n*y + r exactly, for the integer n of the operation, with |r| < |y| and the sign of x
      after truncation, and |r| <= |y|/2, n even on a tie, after rounding to nearest. */
  lemma RemainderIdentity(near: bool, x: DecFloat, y: DecFloat)
    requires x.Finite? && y.Finite? && y.coef > 0
    ensures var n, r, e := IntQuotient(near, x, y), RemainderOf(near, x, y), Min(x.exp, y.exp);
      var N := Signed(x.neg != y.neg, n);
      && SignedUnits(x, e) == N * SignedUnits(y, e) + SignedUnits(r, e)
      && (!near ==> r.coef < RightUnits(x, y) && (r.coef > 0 ==> r.neg == x.neg))
      && (near ==> 2 * r.coef <= RightUnits(x, y) && (2 * r.coef == RightUnits(x, y) ==> n % 2 == 0))
      && (r.coef == 0 ==> r.neg == x.neg)
  {
    var n, e := IntQuotient(near, x, y), Min(x.exp, y.exp);
    var X, Y := LeftUnits(x, y), RightUnits(x, y);
    RemainderBounds(near, X, Y, n);
    TieEven(near, X, Y, n);
    assert Pow10(0) == 1;
    assert SignedUnits(x, e) == Signed(x.neg, X) && SignedUnits(y, e) == Signed(y.neg, Y);
    hide Pow10, IntegerOf, Numer, Denom;
    SignedProduct(x.neg, y.neg, n, Y);
  }

  lemma TieEven(near: bool, N: nat, D: nat, n: nat)
    requires D > 0 && n == IntegerOf(near, N, D)
    ensures near && 2 * Magnitude(N - n * D) == D ==> n % 2 == 0
  {
    var q, r := N / D, N % D;
    DivModFact(N, D);
    assert (q + 1) * D == q * D + D;
  }

  lemma SignedProduct(a: bool, b: bool, n: nat, y: nat)
    ensures Signed(a != b, n) * Signed(b, y) == Signed(a, n * y)
  {
  }

  // ---- and one by one, on values alone ----

  /** Magnitudes in units of the smaller exponent, and when the integer quotient is too long. */
  lemma OperandUnits(f: Format, x: DecFloat, y: DecFloat)
    requires Divisible(f, x, y)
    ensures var e := if x.exp <= y.exp then x.exp else y.exp;
      SignedUnits(x, e) == Signed(x.neg, LeftUnits(x, y)) && SignedUnits(y, e) == Signed(y.neg, RightUnits(x, y))
    ensures IntQuotient(false, x, y) >= Pow10(f.pmax) <==> LeftUnits(x, y) >= Pow10(f.pmax) * RightUnits(x, y)
  {
    TimesOne(x.coef);
    TimesOne(y.coef);
    hide Pow10;
    FloorAtLeast(LeftUnits(x, y), RightUnits(x, y), Pow10(f.pmax));
  }

  /** DivideInteger: q*y is x cut toward zero to a multiple of y. */
  lemma DivideIntegerLaw(f: Format, m: Mode, x: DecFloat, y: DecFloat, r: DecFloat, s0: set<Flag>, s1: set<Flag>)
    requires Divisible(f, x, y) && Divided(f, m, DivideInteger, x, y, r, s0, s1)
    ensures var e := if x.exp <= y.exp then x.exp else y.exp;
      var X, Y := SignedUnits(x, e), SignedUnits(y, e);
      if Magnitude(X) >= Pow10(f.pmax) * Magnitude(Y) then r == NaN(false, false, 0) && s1 == s0 + {DivisionImpossible}
      else
        && r.Finite? && r.exp == 0 && r.neg == (x.neg != y.neg) && s1 == s0
        && var qy := Signed(r.neg, r.coef) * Y;
           Magnitude(X - qy) < Magnitude(Y) && (X >= 0 ==> 0 <= qy <= X) && (X <= 0 ==> X <= qy <= 0)
  {
    hide Pow10, IntQuotient, LeftUnits, RightUnits, SignedUnits;
    OperandUnits(f, x, y);
    TruncatedQuotient(x, y);
    SignedProduct(x.neg, y.neg, IntQuotient(false, x, y), RightUnits(x, y));
  }

  lemma TruncatedQuotient(x: DecFloat, y: DecFloat)
    requires x.Finite? && y.Finite? && y.coef > 0
    ensures var q := IntQuotient(false, x, y) * RightUnits(x, y);
      0 <= q <= LeftUnits(x, y) < q + RightUnits(x, y)
  {
    hide LeftUnits, RightUnits;
    RemainderBounds(false, LeftUnits(x, y), RightUnits(x, y), IntQuotient(false, x, y));
    MulLe(0, IntQuotient(false, x, y), RightUnits(x, y));
  }

  lemma RemainderUnits(near: bool, x: DecFloat, y: DecFloat)
    requires x.Finite? && y.Finite? && y.coef > 0
    ensures var r := RemainderOf(near, x, y);
      r.Finite? && r.exp == Min(x.exp, y.exp) && SignedUnits(r, r.exp) == Signed(r.neg, r.coef)
  {
    TimesOne(RemainderOf(near, x, y).coef);
  }

  lemma SignedEven(neg: bool, n: nat)
    ensures n % 2 == 0 ==> Signed(neg, n) % 2 == 0
  {
  }

  /** Remainder: x less an integer multiple of y, smaller than y and with the sign of x. */
  lemma RemainderLaw(f: Format, m: Mode, x: DecFloat, y: DecFloat, r: DecFloat, s0: set<Flag>, s1: set<Flag>) returns (N: int)
    requires Divisible(f, x, y) && Divided(f, m, Remainder, x, y, r, s0, s1)
    ensures var e := if x.exp <= y.exp then x.exp else y.exp;
      var X, Y := SignedUnits(x, e), SignedUnits(y, e);
      if Magnitude(X) >= Pow10(f.pmax) * Magnitude(Y) then r == NaN(false, false, 0) && s1 == s0 + {DivisionImpossible}
      else
        && r.Finite? && r.exp == e && s1 == s0
        && var R := SignedUnits(r, e);
           X == N * Y + R && Magnitude(R) < Magnitude(Y) && (R != 0 ==> (R < 0 <==> X < 0)) && (R == 0 ==> r.neg == x.neg)
  {
    hide Pow10, IntQuotient, LeftUnits, RightUnits, SignedUnits, RemainderOf;
    N := Signed(x.neg != y.neg, IntQuotient(false, x, y));
    OperandUnits(f, x, y);
    RemainderIdentity(false, x, y);
    RemainderUnits(false, x, y);
  }

  /** RemainderNear: at most half of y, and on a tie the multiple is even. */
  lemma RemainderNearLaw(f: Format, m: Mode, x: DecFloat, y: DecFloat, r: DecFloat, s0: set<Flag>, s1: set<Flag>) returns (N: int)
    requires Divisible(f, x, y) && Divided(f, m, RemainderNear, x, y, r, s0, s1)
    ensures var e := if x.exp <= y.exp then x.exp else y.exp;
      var X, Y := SignedUnits(x, e), SignedUnits(y, e);
      if Magnitude(X) >= Pow10(f.pmax) * Magnitude(Y) then r == NaN(false, false, 0) && s1 == s0 + {DivisionImpossible}
      else
        && r.Finite? && r.exp == e && s1 == s0
        && var R := SignedUnits(r, e);
           X == N * Y + R && 2 * Magnitude(R) <= Magnitude(Y) && (2 * Magnitude(R) == Magnitude(Y) ==> N % 2 == 0)
           && (R == 0 ==> r.neg == x.neg)
  {
    hide Pow10, IntQuotient, LeftUnits, RightUnits, SignedUnits, RemainderOf;
    N := Signed(x.neg != y.neg, IntQuotient(true, x, y));
    OperandUnits(f, x, y);
    RemainderIdentity(true, x, y);
    RemainderUnits(true, x, y);
    SignedEven(x.neg != y.neg, IntQuotient(true, x, y));
  }

  /** Divide: the sign of the true quotient, and Inexact unless the result times y is x. */
  lemma DivideLaw(f: Format, m: Mode, x: DecFloat, y: DecFloat, r: DecFloat, s1: set<Flag>)
    requires Divisible(f, x, y) && Divided(f, m, Divide, x, y, r, {}, s1)
    ensures (r.Finite? || r.Infinite?) && r.neg == (x.neg != y.neg)
    ensures r.Infinite? ==> Inexact in s1
    ensures r.Finite? ==>
      var p := r.exp + y.exp;
      var e := if p <= x.exp then p else x.exp;
      Inexact !in s1 <==> Signed(r.neg, r.coef) * Signed(y.neg, y.coef) * Pow10(p - e) == SignedUnits(x, e)
  {
    hide Pow10, Rounded, ExactOf, Units, Overflows;
    var v := ExactOf(f, x.neg != y.neg, x.coef, y.coef, x.exp - y.exp);
    ResultShape(f, m, v, r, {}, s1);
    StatusMeaning(f, m, v, r, s1);
    QuotientForm(f, x, y);
    if r.Finite? {
      QuotientExact(f, x, y, r);
      var e := Min(r.exp + y.exp, x.exp);
      SignedTimes(r.neg, r.coef, y.neg, y.coef, Pow10(r.exp + y.exp - e));
    }
  }

  lemma QuotientForm(f: Format, x: DecFloat, y: DecFloat)
    requires Divisible(f, x, y)
    ensures f.Valid() && ExactOf(f, x.neg != y.neg, x.coef, y.coef, x.exp - y.exp).neg == (x.neg != y.neg)
  {
  }

  /** The quotient is exactly r when r times y, at a common exponent, is x. */
  lemma QuotientExact(f: Format, x: DecFloat, y: DecFloat, r: DecFloat)
    requires Divisible(f, x, y) && r.Finite? && r.exp >= f.Qtiny()
    ensures var v, e := ExactOf(f, x.neg != y.neg, x.coef, y.coef, x.exp - y.exp), Min(r.exp + y.exp, x.exp);
      Units(f, r) * v.den == v.num <==> r.coef * y.coef * Pow10(r.exp + y.exp - e) == x.coef * Pow10(x.exp - e)
  {
    var q, e0 := f.Qtiny(), x.exp - y.exp;
    hide Pow10;
    TimesOne(x.coef);
    TimesOne(r.coef * y.coef);
    if e0 < q {
      Pow10Add(r.exp - q, q - e0);
      FourProducts(r.coef, Pow10(r.exp - q), y.coef, Pow10(q - e0));
    } else if r.exp >= e0 {
      Pow10Add(r.exp - e0, e0 - q);
      FourProducts(r.coef, Pow10(r.exp - e0), y.coef, Pow10(e0 - q));
      Cancel(r.coef * y.coef * Pow10(r.exp - e0), x.coef, Pow10(e0 - q));
    } else {
      Pow10Add(e0 - r.exp, r.exp - q);
      FourProducts(r.coef, 1, y.coef, Pow10(r.exp - q));
      MulAssoc(x.coef, Pow10(e0 - r.exp), Pow10(r.exp - q));
      Cancel(r.coef * y.coef, x.coef * Pow10(e0 - r.exp), Pow10(r.exp - q));
    }
  }

  lemma FourProducts(r: nat, a: nat, y: nat, b: nat)
    ensures r * a * (y * b) == r * y * (a * b) == r * y * a * b && r * (a * b) * y == r * y * a * b
  {
    assert r * a * y == r * y * a;
    MulAssoc(r * a, y, b);
    MulAssoc(r * y, a, b);
    assert r * (a * b) * y == r * y * (a * b);
  }

  lemma Cancel(a: int, b: int, c: nat)
    requires c > 0
    ensures a * c == b * c <==> a == b
  {
    if a < b { MulLt(a, b, c); } else if b < a { MulLt(b, a, c); }
  }

  /** A NaN or an infinity among the operands, operation by operation. */
  lemma SpecialQuotients(f: Format, op: DivOp, x: DecFloat, y: DecFloat, r: DecFloat, s0: set<Flag>, s1: set<Flag>)
    requires (!x.Finite? || !y.Finite?) && SpecialQuotient(f, op, x, y, r, s0, s1)
    ensures x.NaN? || y.NaN? ==> r == Propagated(x, y) && s1 == s0 + NaNFlags(x, y)
    ensures x.Infinite? && y.Infinite? ==> r == NaN(false, false, 0) && s1 == s0 + {InvalidOperation}
    ensures x.Infinite? && y.Finite? ==>
      if op == Divide || op == DivideInteger then r == Infinite(x.neg != y.neg) && s1 == s0
      else r == NaN(false, false, 0) && s1 == s0 + {InvalidOperation}
    ensures x.Finite? && y.Infinite? ==> s1 == s0
    ensures x.Finite? && y.Infinite? && (op == Remainder || op == RemainderNear) ==> r == x
    ensures x.Finite? && y.Infinite? && op == DivideInteger ==> r == Finite(x.neg != y.neg, 0, 0)
    ensures x.Finite? && y.Infinite? && op == Divide ==> r == Finite(x.neg != y.neg, 0, f.emin - f.pmax + 1)
  {
  }

  /** Division by zero, operation by operation. */
  lemma ZeroDivisors(op: DivOp, x: DecFloat, y: DecFloat, r: DecFloat, s0: set<Flag>, s1: set<Flag>)
    requires x.Finite? && y.Finite? && y.coef == 0 && ZeroDivisor(op, x, y, r, s0, s1)
    ensures x.coef == 0 ==> r == NaN(false, false, 0) && s1 == s0 + {DivisionUndefined}
    ensures x.coef > 0 && (op == Divide || op == DivideInteger) ==> r == Infinite(x.neg != y.neg) && s1 == s0 + {DivisionByZero}
    ensures x.coef > 0 && (op == Remainder || op == RemainderNear) ==> r == NaN(false, false, 0) && s1 == s0 + {InvalidOperation}
  {
  }
}
