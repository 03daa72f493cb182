/** decFloatNextMinus and decFloatNextPlus: the neighbours of a number, found by adding a tiny
    delta and rounding outwards. */
module NextAfter {
  import opened Powers
  import opened Formats
  import opened Rounding
  import opened Meaning
  import opened Specials
  import opened DivideLoop
  import opened Sums
  import opened Fma
  import opened Thousands
  import opened Add

  /** The value of a finite datum in units of the least quantum. */
  function Value(f: Format, x: DecFloat): int
    requires x.Finite? && x.exp >= f.Qtiny()
  {
    Signed(x.neg, Units(f, x))
  }

  /** A value as seen looking up, or looking down. */
  function Looking(up: bool, v: int): int {
    if up then v else -v
  }

  /** y lies beyond x in the direction looked in. */
  predicate Beyond(f: Format, up: bool, x: DecFloat, y: DecFloat)
    requires x.Finite? && x.exp >= f.Qtiny()
  {
    y.Finite? && y.Fits(f) && Looking(up, Value(f, y)) > Looking(up, Value(f, x))
  }

  /** r is the neighbour of x: the nearest datum beyond it, or infinity when there is none. */
  ghost predicate IsNext(f: Format, up: bool, x: DecFloat, r: DecFloat)
    requires x.Finite? && x.exp >= f.Qtiny()
  {
    if r.Finite? then
      && Beyond(f, up, x, r)
      && (forall y: DecFloat :: Beyond(f, up, x, y) ==> Looking(up, Value(f, r)) <= Looking(up, Value(f, y)))
      && (r.coef == 0 ==> r.neg == up)
    else r == Infinite(!up) && forall y: DecFloat :: !Beyond(f, up, x, y)
  }

  /** The smallest non-zero datum with the sign of the direction. */
  function Delta(f: Format, up: bool): DecFloat {
    Finite(!up, 1, f.Qtiny())
  }

  function Outward(up: bool): Mode {
    if up then Ceiling else Floor
  }

  /** The exact sum is one unit beyond x. */
  lemma OneBeyond(f: Format, up: bool, x: DecFloat)
    requires f.Valid() && x.Finite? && x.Fits(f)
    ensures var t := Looking(up, Value(f, x)) + 1;
      ExactSum(f, Outward(up), Addend(x), Addend(Delta(f, up))) ==
      Exact(if t < 0 then up else !up, Magnitude(t), 1, 0)
  {
    assert Pow10(0) == 1;
    hide Pow10;
  }

  /** The result with the sign of a zero put right. */
  function ZeroFlipped(r: DecFloat): DecFloat {
    if r.IsZero() then Finite(!r.neg, r.coef, r.exp) else r
  }

  lemma UnitsZero(f: Format, r: DecFloat)
    requires r.Finite? && r.exp >= f.Qtiny()
    ensures Units(f, r) == 0 <==> r.coef == 0
  {
    if r.coef > 0 { MulLt(0, r.coef, Pow10(r.exp - f.Qtiny())); }
  }

  lemma ZeroIsDatum(f: Format)
    requires f.Valid()
    ensures Datum(f, 0) && Datum(f, 1)
  {
    assert Pow10(0) == 1 && Pow10(f.pmax) > 1 by { Pow10Grows(0, f.pmax); }
    assert Writes(f, 0, 0, 0) && Writes(f, 1, 0, 1);
  }

  /** Rounding outwards from one unit beyond gives the neighbour. */
  lemma NextRounds(f: Format, up: bool, x: DecFloat, r: DecFloat, s0: set<Flag>, s1: set<Flag>)
    requires f.Valid() && x.Finite? && x.Fits(f)
    requires Rounded(f, Outward(up), ExactSum(f, Outward(up), Addend(x), Addend(Delta(f, up))), r, s0, s1)
    ensures IsNext(f, up, x, ZeroFlipped(r))
  {
    OneBeyond(f, up, x);
    var t := Looking(up, Value(f, x)) + 1;
    hide Rounded, ExactSum, Units, Nmax, Datum;
    if t < 0 {
      NextInward(f, up, x, t, r, s0, s1);
    } else {
      NextOutward(f, up, x, t, r, s0, s1);
    }
  }

  /** Towards zero: the greatest magnitude not above the target. */
  lemma NextInward(f: Format, up: bool, x: DecFloat, t: int, r: DecFloat, s0: set<Flag>, s1: set<Flag>)
    requires f.Valid() && x.Finite? && x.Fits(f) && t == Looking(up, Value(f, x)) + 1 < 0
    requires Rounded(f, Outward(up), Exact(up, Magnitude(t), 1, 0), r, s0, s1)
    ensures IsNext(f, up, x, ZeroFlipped(r))
  {
    var e := Exact(up, Magnitude(t), 1, 0);
    hide Rounded, Units, Nmax, Datum;
    DirectedDown(f, Outward(up), e, r, s0, s1);
    ZeroIsDatum(f);
    UnitsZero(f, r);
    assert 1 * e.den <= e.num && Units(f, r) >= 1;
    forall y: DecFloat | Beyond(f, up, x, y)
      ensures Looking(up, Value(f, r)) <= Looking(up, Value(f, y))
    {
      FitsIsDatum(f, y);
      assert Units(f, y) * e.den == Units(f, y);
    }
  }

  /** Away from zero: the least magnitude not below the target. */
  lemma NextOutward(f: Format, up: bool, x: DecFloat, t: int, r: DecFloat, s0: set<Flag>, s1: set<Flag>)
    requires f.Valid() && x.Finite? && x.Fits(f) && t == Looking(up, Value(f, x)) + 1 >= 0
    requires Rounded(f, Outward(up), Exact(!up, Magnitude(t), 1, 0), r, s0, s1)
    ensures IsNext(f, up, x, ZeroFlipped(r))
  {
    var e := Exact(!up, Magnitude(t), 1, 0);
    hide Rounded, Units, Nmax, Datum;
    DirectedUp(f, Outward(up), e, r, s0, s1);
    ZeroIsDatum(f);
    if r.Finite? {
      UnitsZero(f, r);
      FlippedUnits(f, r);
    }
    forall y: DecFloat | Beyond(f, up, x, y)
      ensures r.Finite? && Looking(up, Value(f, ZeroFlipped(r))) <= Looking(up, Value(f, y))
    {
      FitsIsDatum(f, y);
      DatumBound(f, Units(f, y));
      assert e.num <= Units(f, y) * e.den;
    }
  }

  lemma FlippedUnits(f: Format, r: DecFloat)
    requires r.Finite? && r.exp >= f.Qtiny()
    ensures ZeroFlipped(r).Finite? && ZeroFlipped(r).exp == r.exp && Units(f, ZeroFlipped(r)) == Units(f, r)
  {
  }

  /** What a next operation returns: a neighbour, the largest finite number inside an
      infinity, or a NaN; only a signaling NaN leaves a trace in the status. */
  ghost predicate Next(f: Format, up: bool, x: DecFloat, r: DecFloat, s0: set<Flag>, s1: set<Flag>)
    requires f.Valid() && x.Fits(f)
  {
    match x
    case Finite(_, _, _) => IsNext(f, up, x, r) && s1 == s0
    case Infinite(neg) => r == (if neg == up then Finite(neg, Pow10(f.pmax) - 1, f.Qmax()) else x) && s1 == s0
    case NaN(_, _, _) => r == Quieted(x) && s1 == s0 + NaNFlags(x, x)
  }

  /** Adds the delta, rounding outwards, and restores mode and pending flags. */
  method AddDelta(f: Format, df: DecFloat, up: bool, set_: Context) returns (r: DecFloat)
    requires Arithmetic(f) && Decletted(f) && df.Fits(f) && (df.Infinite? ==> df.neg != up)
    modifies set_
    ensures set_.round == old(set_.round) && Next(f, up, df, r, old(set_.status), set_.status)
  {
    var delta := Delta(f, up);
    Pow10Grows(0, f.pmax);
    assert f.Valid() && delta.Fits(f);
    hide Rounded, ExactSum, IsNext, Arithmetic, Decletted;
    var saveround := set_.round;
    set_.round := Outward(up);
    var savestat := set_.status;
    r := DecFloatAdd(f, df, delta, set_);
    if df.Finite? {
      NextRounds(f, up, df, r, savestat, set_.status);
      StatusKept(f, df, delta, set_.round, r, savestat, set_.status);
    }
    if r.IsZero() {
      r := Finite(!r.neg, r.coef, r.exp);
    }
    set_.status := set_.status * {InvalidOperation};
    set_.status := set_.status + savestat;
    set_.round := saveround;
  }

  /** A rounded sum never raises Invalid operation. */
  lemma StatusKept(f: Format, x: DecFloat, y: DecFloat, m: Mode, r: DecFloat, s0: set<Flag>, s1: set<Flag>)
    requires f.Valid() && x.Finite? && y.Finite? && Rounded(f, m, ExactSum(f, m, Addend(x), Addend(y)), r, s0, s1)
    ensures s1 * {InvalidOperation} + s0 == s0
  {
    hide ExactSum, Quantum, Finish, Pow10;
    var e := ExactSum(f, m, Addend(x), Addend(y));
    var j: nat :| Quantum(f, e, j) && r == Finish(f, m, e, j).df && s1 == s0 + Finish(f, m, e, j).flags;
    FinishFlags(f, m, e, j);
  }

  /** No rounding is an invalid operation. */
  lemma FinishFlags(f: Format, m: Mode, e: Exact, j: nat)
    requires f.Valid() && e.den > 0
    ensures InvalidOperation !in Finish(f, m, e, j).flags
  {
    hide RoundInt, Pow10, IntegralAt;
  }

  /** decFloatNextMinus: the greatest number below. */
  method DecFloatNextMinus(f: Format, df: DecFloat, set_: Context) returns (r: DecFloat)
    requires Arithmetic(f) && Decletted(f) && df.Fits(f)
    modifies set_
    ensures set_.round == old(set_.round) && Next(f, false, df, r, old(set_.status), set_.status)
  {
    if df.Infinite? && !df.neg {
      return Finite(false, Pow10(f.pmax) - 1, f.Qmax());
    }
    r := AddDelta(f, df, false, set_);
  }

  /** decFloatNextPlus: the least number above. */
  method DecFloatNextPlus(f: Format, df: DecFloat, set_: Context) returns (r: DecFloat)
    requires Arithmetic(f) && Decletted(f) && df.Fits(f)
    modifies set_
    ensures set_.round == old(set_.round) && Next(f, true, df, r, old(set_.status), set_.status)
  {
    if df.Infinite? && df.neg {
      return Finite(true, Pow10(f.pmax) - 1, f.Qmax());
    }
    r := AddDelta(f, df, true, set_);
  }

  // ---- what they return, on values alone ----

  /** The neighbour above: no datum y lies between; a zero reached from below is negative; plus infinity only past
      the greatest datum. */
  lemma NextPlusMeans(f: Format, x: DecFloat, r: DecFloat, s0: set<Flag>, s1: set<Flag>, y: DecFloat)
    requires f.Valid() && x.Fits(f) && Next(f, true, x, r, s0, s1) && y.Finite? && y.Fits(f)
    ensures var q := f.emin - f.pmax + 1;
      x.Finite? ==>
        && s1 == s0 && (r == Infinite(false) || (r.Finite? && r.Fits(f)))
        && (r.Finite? ==> SignedUnits(x, q) < SignedUnits(r, q) && (r.coef == 0 ==> r.neg))
        && (r.Finite? && SignedUnits(x, q) < SignedUnits(y, q) ==> SignedUnits(r, q) <= SignedUnits(y, q))
        && (r.Infinite? ==> SignedUnits(y, q) <= SignedUnits(x, q))
    ensures x == Infinite(true) ==> r == Finite(true, Pow10(f.pmax) - 1, f.emax - f.pmax + 1) && s1 == s0
    ensures x == Infinite(false) ==> r == x && s1 == s0
    ensures x.NaN? ==> r == NaN(x.neg, false, x.payload) && s1 == s0 + if x.signaling then {InvalidOperation} else {}
  {
    hide Pow10;
    if x.Finite? {
      assert Beyond(f, true, x, y) <==> Value(f, x) < Value(f, y);
    }
  }

  /** The neighbour below. */
  lemma NextMinusMeans(f: Format, x: DecFloat, r: DecFloat, s0: set<Flag>, s1: set<Flag>, y: DecFloat)
    requires f.Valid() && x.Fits(f) && Next(f, false, x, r, s0, s1) && y.Finite? && y.Fits(f)
    ensures var q := f.emin - f.pmax + 1;
      x.Finite? ==>
        && s1 == s0 && (r == Infinite(true) || (r.Finite? && r.Fits(f)))
        && (r.Finite? ==> SignedUnits(r, q) < SignedUnits(x, q) && (r.coef == 0 ==> !r.neg))
        && (r.Finite? && SignedUnits(y, q) < SignedUnits(x, q) ==> SignedUnits(y, q) <= SignedUnits(r, q))
        && (r.Infinite? ==> SignedUnits(x, q) <= SignedUnits(y, q))
    ensures x == Infinite(false) ==> r == Finite(false, Pow10(f.pmax) - 1, f.emax - f.pmax + 1) && s1 == s0
    ensures x == Infinite(true) ==> r == x && s1 == s0
    ensures x.NaN? ==> r == NaN(x.neg, false, x.payload) && s1 == s0 + if x.signaling then {InvalidOperation} else {}
  {
    hide Pow10;
    if x.Finite? {
      assert Beyond(f, false, x, y) <==> Value(f, y) < Value(f, x);
    }
  }
}
