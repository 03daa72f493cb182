/** decFloatNextToward: the neighbour in the direction of another number, found by adding a tenth of the
    smallest number with decFloatFMA, so that the status tells when the result leaves the normal range. */
module NextToward {
  import opened Powers
  import opened Formats
  import opened Rounding
  import opened Integers
  import opened Meaning
  import opened Specials
  import opened Multiply
  import opened Sums
  import opened Fma
  import opened NextAfter
  import opened Compare

  const POINT_ONE := Finite(false, 1, -1)

  /** A compiled format with room for the multiplier. */
  predicate HasTenth(f: Format) {
    Compiled(f) && f.Qtiny() <= -1
  }

  lemma TenthFormats()
    ensures HasTenth(DOUBLE) && HasTenth(QUAD)
  {
    CompiledFormats();
  }

  /** Ten times x, and one more in the direction looked in. */
  function TenthBeyond(f: Format, up: bool, x: DecFloat): int
    requires x.Finite? && x.exp >= f.Qtiny()
  {
    10 * Looking(up, Value(f, x)) + 1
  }

  function Nudged(f: Format, up: bool, x: DecFloat): Exact
    requires x.Finite? && x.exp >= f.Qtiny()
  {
    var t := TenthBeyond(f, up, x);
    Exact(if t < 0 then up else !up, Magnitude(t), 10, -1)
  }

  lemma TenUnits(f: Format, c: nat, n: nat)
    ensures Shifted(c, n + 1) == 10 * (c * Pow10(n)) && Shifted(1, 0) == 1
  {
    assert Pow10(0) == 1 && Pow10(n + 1) == 10 * Pow10(n);
    hide Pow10;
    MulTen(c, Pow10(n));
  }

  lemma MulTen(c: nat, p: nat)
    ensures c * (10 * p) == 10 * (c * p)
  {
  }

  /** The exact sum is a tenth of a unit beyond x. */
  lemma NudgeIsSum(f: Format, up: bool, x: DecFloat)
    requires f.Valid() && x.Finite? && x.Fits(f)
    ensures ExactSum(f, Outward(up), Product(Delta(f, up), POINT_ONE), Addend(x)) == Nudged(f, up, x)
  {
    var a, b := Term(!up, 1, f.Qtiny() - 1), Term(x.neg, x.coef, x.exp);
    assert Product(Delta(f, up), POINT_ONE) == a && Addend(x) == b && Pow10(1) == 10;
    TenUnits(f, x.coef, x.exp - f.Qtiny());
    hide Pow10, Shifted, Product, Addend;
    assert SumOf(a, b) == Looking(up, TenthBeyond(f, up, x));
  }

  /** A tenth of a unit beyond, rounded outwards, is the neighbour. */
  lemma NudgeRounds(f: Format, up: bool, x: DecFloat, r: DecFloat, s0: set<Flag>, s1: set<Flag>)
    requires f.Valid() && x.Finite? && x.Fits(f)
    requires Rounded(f, Outward(up), Nudged(f, up, x), r, s0, s1)
    ensures IsNext(f, up, x, r)
  {
    hide Rounded, Units, Nmax, Datum;
    if TenthBeyond(f, up, x) < 0 {
      NudgeInward(f, up, x, r, s0, s1);
    } else {
      NudgeOutward(f, up, x, r, s0, s1);
    }
  }

  lemma NudgeInward(f: Format, up: bool, x: DecFloat, r: DecFloat, s0: set<Flag>, s1: set<Flag>)
    requires f.Valid() && x.Finite? && x.Fits(f) && TenthBeyond(f, up, x) < 0
    requires Rounded(f, Outward(up), Nudged(f, up, x), r, s0, s1)
    ensures IsNext(f, up, x, r)
  {
    var e := Nudged(f, up, x);
    hide Rounded, Units, Nmax, Datum;
    DirectedDown(f, Outward(up), e, r, s0, s1);
    forall y: DecFloat | Beyond(f, up, x, y)
      ensures Looking(up, Value(f, r)) <= Looking(up, Value(f, y))
    {
      FitsIsDatum(f, y);
      assert Looking(up, Value(f, y)) < 0 ==> Units(f, y) * e.den <= e.num;
    }
  }

  lemma NudgeOutward(f: Format, up: bool, x: DecFloat, r: DecFloat, s0: set<Flag>, s1: set<Flag>)
    requires f.Valid() && x.Finite? && x.Fits(f) && TenthBeyond(f, up, x) >= 0
    requires Rounded(f, Outward(up), Nudged(f, up, x), r, s0, s1)
    ensures IsNext(f, up, x, r)
  {
    var e := Nudged(f, up, x);
    assert r.Finite? && r.exp >= f.Qtiny() && r.coef == 0 ==> Units(f, r) == 0;
    hide Rounded, Units, Nmax, Datum;
    DirectedUp(f, Outward(up), e, r, s0, s1);
    forall y: DecFloat | Beyond(f, up, x, y)
      ensures r.Finite? && Looking(up, Value(f, r)) <= Looking(up, Value(f, y))
    {
      FitsIsDatum(f, y);
      DatumBound(f, Units(f, y));
      assert e.num <= Units(f, y) * e.den;
    }
  }

  /** Finite, not zero and not below the normal range (decFloatIsNormal). */
  predicate IsNormal(f: Format, x: DecFloat) {
    x.Finite? && x.coef != 0 && x.exp + NumDigits(x.coef) - 1 >= f.emin
  }

  /** What leaving the normal range adds to the status. */
  function LeavingFlags(f: Format, r: DecFloat): set<Flag> {
    if IsNormal(f, r) then {}
    else if r.Infinite? then {Overflow, Inexact}
    else {Underflow, Inexact}
  }

  /** A datum is normal when it has at least 10^(pmax-1) units. */
  lemma NormalUnits(f: Format, r: DecFloat)
    requires f.Valid() && r.Finite? && r.Fits(f)
    ensures IsNormal(f, r) <==> Units(f, r) >= Pow10(f.pmax - 1)
  {
    Pow10Grows(0, f.pmax);
    if r.coef > 0 {
      var len := NumDigits(r.coef);
      assert Pow10(len - 1) <= r.coef < Pow10(len);
      hide Pow10, NumDigits;
      TinyByExponent(f, r.neg, r.coef, r.exp, len);
      UnitsAre(f, r);
    } else {
      assert 0 * Pow10(r.exp - f.Qtiny()) == 0;
    }
  }

  lemma UnitsAre(f: Format, r: DecFloat)
    requires r.Finite? && r.exp >= f.Qtiny()
    ensures ExactOf(f, r.neg, r.coef, 1, r.exp).num == Units(f, r) && ExactOf(f, r.neg, r.coef, 1, r.exp).den == 1
  {
  }

  /** The status of the rounding, when it is not discarded, says how the range was left. */
  lemma NudgeStatus(f: Format, up: bool, x: DecFloat, r: DecFloat, s: set<Flag>)
    requires f.Valid() && x.Finite? && x.Fits(f)
    requires Rounded(f, Outward(up), Nudged(f, up, x), r, {}, s) && !IsNormal(f, r)
    ensures s == LeavingFlags(f, r)
  {
    hide *;
    AboveQtiny(f, x);
    AboveQtiny(f, r);
    NudgeDirection(f, up, x);
    var e := Nudged(f, up, x);
    StatusMeaning(f, Outward(up), e, r, s);
    NudgeSize(f, up, x, r, s);
    LeavingIs(f, r);
    if r.Finite? {
      assert Inexact in s by {
        if r.Fits(f) && Units(f, r) * e.den == e.num { NotTenfold(Units(f, r), e.num); }
      }
      assert Underflow in s && Overflow !in s;
      OnlyThree(s);
    } else {
      assert Overflow in s && Inexact in s && Underflow !in s;
      OnlyThree(s);
    }
  }

  lemma AboveQtiny(f: Format, r: DecFloat)
    ensures r.Finite? && r.Fits(f) ==> r.exp >= f.Qtiny()
  {
  }

  lemma NotTenfold(u: nat, n: nat)
    requires n % 10 != 0
    ensures u * 10 != n
  {
  }

  lemma OnlyThree(s: set<Flag>)
    requires s <= {Inexact, Underflow, Overflow}
    ensures Inexact in s && Underflow in s && Overflow !in s ==> s == {Underflow, Inexact}
    ensures Inexact in s && Underflow !in s && Overflow in s ==> s == {Overflow, Inexact}
  {
  }

  lemma LeavingIs(f: Format, r: DecFloat)
    requires !IsNormal(f, r)
    ensures LeavingFlags(f, r) == if r.Infinite? then {Overflow, Inexact} else {Underflow, Inexact}
  {
  }

  /** A result that is not normal is infinite for a value beyond the largest number, else tiny. */
  lemma NudgeSize(f: Format, up: bool, x: DecFloat, r: DecFloat, s: set<Flag>)
    requires f.Valid() && x.Finite? && x.Fits(f)
    requires Rounded(f, Outward(up), Nudged(f, up, x), r, {}, s) && !IsNormal(f, r)
    ensures var e := Nudged(f, up, x);
      && e.den > 0 && (r.Finite? || r.Infinite?)
      && (r.Infinite? ==> e.num >= e.den * Pow10(f.pmax - 1))
      && (r.Finite? ==> e.num < e.den * Pow10(f.pmax - 1) && e.num <= Nmax(f) * e.den)
  {
    var e, dir := Nudged(f, up, x), Outward(up);
    NudgeDirection(f, up, x);
    Sizes(f);
    FitsIsDatum(f, x);
    DatumBound(f, Units(f, x));
    hide *;
    if TenthBeyond(f, up, x) < 0 {
      DirectedDown(f, dir, e, r, {}, s);
      NormalUnits(f, r);
      TinyIsDatum(f);
    } else {
      DirectedUp(f, dir, e, r, {}, s);
      if r.Finite? {
        NormalUnits(f, r);
        FitsIsDatum(f, r);
      }
    }
  }

  lemma NudgeDirection(f: Format, up: bool, x: DecFloat)
    requires f.Valid() && x.Finite? && x.Fits(f)
    ensures var e, t := Nudged(f, up, x), TenthBeyond(f, up, x);
      && e.den == 10 && e.num == Magnitude(t) && e.num % 10 != 0
      && (if t < 0 then TowardZero(Outward(up), e.neg) else AwayFromZero(Outward(up), e.neg))
      && (t < 0 ==> e.num <= 10 * Units(f, x))
  {
    hide Units;
  }

  lemma Sizes(f: Format)
    requires f.Valid()
    ensures Pow10(f.pmax - 1) <= Nmax(f)
  {
    TinyIsDatum(f);
    DatumBound(f, Pow10(f.pmax - 1));
  }

  lemma TinyIsDatum(f: Format)
    requires f.Valid()
    ensures Datum(f, Pow10(f.pmax - 1))
  {
    Pow10Grows(f.pmax - 1, f.pmax);
    assert Pow10(0) == 1;
    assert Writes(f, Pow10(f.pmax - 1), 0, Pow10(f.pmax - 1));
  }

  /** What decFloatNextToward returns and leaves in the status. */
  ghost predicate Toward(f: Format, x: DecFloat, y: DecFloat, r: DecFloat, s0: set<Flag>, s1: set<Flag>)
    requires f.Valid() && x.Fits(f) && y.Fits(f)
  {
    if x.NaN? || y.NaN? then r == Propagated(x, y) && s1 == s0 + NaNFlags(x, y)
    else if Rank(f, x) == Rank(f, y) then r == CopySign(x, y) && s1 == s0
    else if x.Infinite? then r == Finite(x.neg, Pow10(f.pmax) - 1, f.Qmax()) && s1 == s0
    else IsNext(f, Rank(f, x) < Rank(f, y), x, r) && s1 == s0 + LeavingFlags(f, r)
  }

  /** x with the sign of y. */
  function CopySign(x: DecFloat, y: DecFloat): DecFloat
  {
    match x
    case Finite(_, c, e) => Finite(y.neg, c, e)
    case Infinite(_) => Infinite(y.neg)
    case NaN(_, s, p) => NaN(y.neg, s, p)
  }

  /** The status goes from s0 to s1 as it would from nothing to the flags raised. */
  lemma FlagsRaised(f: Format, m: Mode, x: Exact, r: DecFloat, s0: set<Flag>, s1: set<Flag>) returns (s: set<Flag>)
    requires f.Valid() && x.den > 0 && Rounded(f, m, x, r, s0, s1)
    ensures Rounded(f, m, x, r, {}, s) && s1 == s0 + s
  {
    var j: nat :| Quantum(f, x, j) && r == Finish(f, m, x, j).df && s1 == s0 + Finish(f, m, x, j).flags;
    s := Finish(f, m, x, j).flags;
    assert {} + s == s;
  }

  /** Adds a tenth of the least number, rounding outwards; the status is kept unless the normal range is left. */
  method Nudge(f: Format, dfl: DecFloat, up: bool, set_: Context) returns (r: DecFloat)
    requires HasTenth(f) && dfl.Finite? && dfl.Fits(f)
    modifies set_
    ensures set_.round == old(set_.round) && IsNext(f, up, dfl, r)
    ensures set_.status == old(set_.status) + LeavingFlags(f, r)
  {
    var delta, pointone := Delta(f, up), POINT_ONE;
    Pow10Grows(0, f.pmax);
    assert Compiled(f) && f.Valid() && delta.Fits(f) && f.Qtiny() <= -1 <= f.Qmax() && pointone.Fits(f);
    hide Rounded, ExactSum, IsNext, Nudged, IsNormal, HasTenth, Compiled;
    NudgeIsSum(f, up, dfl);
    assert !Overlaps(f, delta, pointone, dfl);
    var saveround := set_.round;
    set_.round := Outward(up);
    var savestat := set_.status;
    r := DecFloatFMA(f, delta, pointone, dfl, set_);
    ghost var s := FlagsRaised(f, Outward(up), Nudged(f, up, dfl), r, savestat, set_.status);
    NudgeRounds(f, up, dfl, r, {}, s);
    if IsNormal(f, r) {
      set_.status := savestat;
    } else {
      NudgeStatus(f, up, dfl, r, s);
    }
    set_.round := saveround;
  }

  /** decFloatNextToward: the neighbour of dfl on the side of dfr. */
  method DecFloatNextToward(f: Format, dfl: DecFloat, dfr: DecFloat, set_: Context) returns (r: DecFloat)
    requires HasTenth(f) && dfl.Fits(f) && dfr.Fits(f)
    modifies set_
    ensures set_.round == old(set_.round) && Toward(f, dfl, dfr, r, old(set_.status), set_.status)
  {
    if dfl.NaN? || dfr.NaN? {
      r := DecNaNs(dfl, dfr, set_);
      return;
    }
    var comp := DecNumCompare(f, dfl, dfr, false);
    hide IsNext, HasTenth, LeavingFlags;
    if comp == 0 {
      return CopySign(dfl, dfr);
    }
    if dfl.Infinite? {
      InfinityIsEnd(f, dfl, dfr);
    }
    if comp < 0 {
      if dfl.Infinite? && dfl.neg {
        return Finite(true, Pow10(f.pmax) - 1, f.Qmax());
      }
    } else if dfl.Infinite? && !dfl.neg {
      return Finite(false, Pow10(f.pmax) - 1, f.Qmax());
    }
    r := Nudge(f, dfl, comp < 0, set_);
  }

  /** Nothing lies beyond an infinity. */
  lemma InfinityIsEnd(f: Format, x: DecFloat, y: DecFloat)
    requires f.Valid() && Numeric(f, x) && Numeric(f, y) && x.Infinite?
    ensures if x.neg then Rank(f, x) <= Rank(f, y) else Rank(f, x) >= Rank(f, y)
  {
    if y.Finite? {
      Placed(f, y);
    }
  }

  // ---- what it returns, on fields and values alone ----

  /** The neighbour of x on the side of y; the status says when it is infinite or below the normal range. */
  lemma TowardMeans(f: Format, x: DecFloat, y: DecFloat, r: DecFloat, s0: set<Flag>, s1: set<Flag>, z: DecFloat)
    requires f.Valid() && x.Fits(f) && y.Fits(f) && !x.NaN? && !y.NaN? && Toward(f, x, y, r, s0, s1) && z.Finite? && z.Fits(f)
    ensures NumericOrder(f, x, y) == 0 && x.Finite? ==> r == Finite(y.neg, x.coef, x.exp) && s1 == s0
    ensures NumericOrder(f, x, y) == 0 && x.Infinite? ==> r == Infinite(y.neg) && s1 == s0
    ensures NumericOrder(f, x, y) != 0 && x.Infinite? ==>
      r == Finite(x.neg, Pow10(f.pmax) - 1, f.emax - f.pmax + 1) && s1 == s0
    ensures var q := f.emin - f.pmax + 1;
      x.Finite? && NumericOrder(f, x, y) < 0 ==>
        && (r == Infinite(false) || (r.Finite? && r.Fits(f) && SignedUnits(x, q) < SignedUnits(r, q) && (r.coef == 0 ==> r.neg)))
        && (SignedUnits(x, q) < SignedUnits(z, q) ==> r.Finite? && SignedUnits(r, q) <= SignedUnits(z, q))
    ensures var q := f.emin - f.pmax + 1;
      x.Finite? && NumericOrder(f, x, y) > 0 ==>
        && (r == Infinite(true) || (r.Finite? && r.Fits(f) && SignedUnits(r, q) < SignedUnits(x, q) && (r.coef == 0 ==> !r.neg)))
        && (SignedUnits(z, q) < SignedUnits(x, q) ==> r.Finite? && SignedUnits(z, q) <= SignedUnits(r, q))
  {
    hide Pow10, IsNormal, Rank;
    if x.Finite? && NumericOrder(f, x, y) != 0 {
      var up := NumericOrder(f, x, y) < 0;
      assert IsNext(f, up, x, r);
      assert Beyond(f, up, x, z) <==> if up then Value(f, x) < Value(f, z) else Value(f, z) < Value(f, x);
    }
  }

  /** The flags: those of leaving the range upwards, or none in the normal range, or those of a tiny result. */
  lemma TowardFlags(f: Format, x: DecFloat, y: DecFloat, r: DecFloat, s0: set<Flag>, s1: set<Flag>)
    requires f.Valid() && x.Finite? && x.Fits(f) && y.Fits(f) && !y.NaN? && Toward(f, x, y, r, s0, s1) && NumericOrder(f, x, y) != 0
    ensures if r.Infinite? then s1 == s0 + {Overflow, Inexact}
      else if Magnitude(SignedUnits(r, f.emin - f.pmax + 1)) >= Pow10(f.pmax - 1) then s1 == s0
      else s1 == s0 + {Underflow, Inexact}
  {
    hide Pow10, NumDigits, Rank;
    assert s0 + {} == s0;
    assert IsNext(f, NumericOrder(f, x, y) < 0, x, r);
    if r.Finite? {
      NormalUnits(f, r);
    }
  }

  /** A NaN among the operands. */
  lemma TowardNaN(f: Format, x: DecFloat, y: DecFloat, r: DecFloat, s0: set<Flag>, s1: set<Flag>)
    requires f.Valid() && x.Fits(f) && y.Fits(f) && (x.NaN? || y.NaN?) && Toward(f, x, y, r, s0, s1)
    ensures r == Propagated(x, y) && s1 == s0 + NaNFlags(x, y)
  {
  }
}
