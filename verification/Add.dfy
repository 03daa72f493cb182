/** decFloatAdd and decFloatSubtract: the exact sum rounded once, on every path. */
module Add {
  import opened Powers
  import opened Digits
  import opened Formats
  import opened Rounding
  import opened Integers
  import opened Specials
  import opened Finalize
  import opened Swar
  import opened DigitSums
  import opened Complement
  import opened Coefficients
  import opened DivideLoop
  import opened Sums
  import opened FmaSum
  import opened FmaShorten
  import opened Fma
  import opened AddLayout
  import opened Thousands

  // ---- after the digits are added ----

  /** A same-sign sum of coefficients with zeros in front never carries out. */
  lemma PrefixTakesCarry(f: Format, s: seq<nat>, k: nat, h: nat, l: nat, p: nat)
    requires f.Valid() && Prefix(f) > 0 && h < Pow10(f.pmax) && l < Pow10(f.pmax) && Total(Width(f), s, k, false, h, l, p)
    ensures k == 0
  {
    hide Pow10, Dec;
    Pow10Grows(f.pmax, Width(f));
    Pow10Add(Width(f), p);
    assert Shifted(h, p) + l == Dec(s) + CarryValue(k, |s|);
    RoomForCarry(h, l, Pow10(f.pmax), Pow10(Width(f)), Pow10(p));
  }

  lemma RoomForCarry(h: nat, l: nat, P: nat, W: nat, q: nat)
    requires h < P && l < P && 10 * P <= W && q >= 1
    ensures h * q + l < W * q
  {
    MulLe(h + 1, P, q);
    MulLe(10 * P, W, q);
    MulLe(1, q, P);
    assert (h + 1) * q == h * q + q && 10 * P * q == 10 * (P * q);
  }

  lemma ZerosWithin(s: seq<nat>, a: nat, b: nat, c: nat)
    requires a <= c <= b <= |s| && AllOf(s[a..b], 0)
    ensures AllOf(s[a..c], 0)
  {
    assert s[a..c] == s[a..b][..c - a];
  }

  /** The whole initial area is zero: goes on to the right of it. */
  method StripOn(acc: array<nat>, w: nat, lsd: nat) returns (msd: nat, zero: bool)
    requires w >= 1 && 3 + w <= lsd < acc.Length && AllDigits(acc[4..lsd + 1]) && AllOf(acc[4..4 + w], 0)
    ensures 4 <= msd <= lsd && AllDigits(acc[msd..lsd + 1]) && Dec(acc[msd..lsd + 1]) == Dec(acc[4..lsd + 1])
    ensures zero <==> Dec(acc[4..lsd + 1]) == 0
  {
    hide *;
    msd := 3 + w;
    ghost var d := if lsd > msd then 4 + w else msd;
    ZerosWithin(acc[..], 4, 4 + w, d);
    DigitsWithin(acc[..], 4, lsd + 1, d, lsd + 1);
    DecPadded(acc[..], 4, d, lsd + 1);
    if lsd > msd {
      msd := SkipZeros(acc, 4 + w, lsd);
    }
    ZeroByLead(acc[msd..lsd + 1]);
    zero := acc[msd] == 0;
  }

  lemma LeadingArea(s: seq<nat>, z: nat, n: nat)
    requires z + n <= |s| && AllDigits(s) && Dec(s) < Pow10(n)
    ensures AllOf(s[..z], 0)
  {
    hide Dec, Pow10;
    DecBelow(s, n);
    assert s[..z] == s[..|s| - n][..z];
  }

  /** Strips leading zeros, but only where the whole initial coefficient area is zero. */
  method StripArea(f: Format, acc: array<nat>, lsd: nat) returns (msd: nat, zero: bool)
    requires f.Valid() && 3 + Width(f) <= lsd < acc.Length && AllDigits(acc[4..lsd + 1])
    requires Dec(acc[4..lsd + 1]) < Pow10(f.pmax)
    ensures 4 <= msd <= lsd && AllDigits(acc[msd..lsd + 1]) && Dec(acc[msd..lsd + 1]) == Dec(acc[4..lsd + 1])
    ensures zero <==> Dec(acc[4..lsd + 1]) == 0
  {
    hide Dec, Pow10, AllDigits, AllOf;
    ghost var s := acc[4..lsd + 1];
    var z, w := Prefix(f), Width(f);
    LeadingArea(s, z, f.pmax);
    assert acc[4 + z..4 + w] == s[z..w];
    msd := 4;
    zero := AllZero(acc, 4 + z, 4 + w);
    if zero {
      WholeArea(s, z, w);
      assert s[..w] == acc[4..4 + w];
      msd, zero := StripOn(acc, w, lsd);
    } else {
      NonZeroArea(s, z, w);
    }
  }

  lemma WholeArea(s: seq<nat>, z: nat, w: nat)
    requires z <= w <= |s| && AllOf(s[..z], 0) && AllOf(s[z..w], 0)
    ensures AllOf(s[..w], 0)
  {
    forall i | 0 <= i < w
      ensures s[..w][i] == 0
    {
      if i < z { assert s[i] == s[..z][i]; } else { assert s[i] == s[z..w][i - z]; }
    }
  }

  lemma NonZeroArea(s: seq<nat>, z: nat, w: nat)
    requires z <= w <= |s| && !AllOf(s[z..w], 0)
    ensures Dec(s) > 0
  {
    var i :| 0 <= i < w - z && s[z..w][i] != 0;
    DecZeroOnly(s, z + i);
  }

  /** Carry, borrow, sign and the exact-zero rule after the digits are added. */
  method FinishAdd(f: Format, set_: Context, acc: array<nat>, hneg: bool, lneg: bool, lsd: nat, carry: bool,
                   ghost k: nat, ghost h: nat, ghost l: nat, ghost p: nat)
    returns (msd: nat, neg: bool)
    requires f.Valid() && lsd == 3 + Width(f) + p < acc.Length && 0 < h < Pow10(f.pmax) && l < Pow10(f.pmax)
    requires Total(Width(f), acc[4..lsd + 1], k, hneg != lneg, h, l, p) && (carry <==> k != 0)
    modifies acc
    ensures msd <= lsd && AllDigits(acc[msd..lsd + 1])
    ensures Sum(set_.round, hneg, Shifted(h, p), lneg, l, neg, Dec(acc[msd..lsd + 1]))
  {
    ghost var s, m := acc[4..lsd + 1], set_.round;
    HighFits(f, h, p);
    WidthFacts(f);
    DecBound(s);
    hide Dec, Pow10, Shifted, Sum, Width;
    msd, neg := 4, hneg;
    if hneg == lneg {
      if carry && Prefix(f) == 0 {
        acc[3] := 1;
        msd := 3;
        assert acc[3..lsd + 1] == [1] + s;
        DecCons(1, s);
      } else if carry {
        PrefixTakesCarry(f, s, k, h, l, p);
      }
      SameSigns(m, hneg, Shifted(h, p), l, Dec(acc[msd..lsd + 1]));
    } else if !carry {
      Negate(acc, 4, lsd);
      HigherWins(m, hneg, Shifted(h, p), l, Dec(acc[msd..lsd + 1]));
    } else {
      var zero;
      msd, zero := StripArea(f, acc, lsd);
      neg := lneg;
      if zero {
        neg := set_.round.Floor?;
      }
      LowerWins(m, hneg, Shifted(h, p), l, neg, Dec(acc[msd..lsd + 1]));
    }
  }

  lemma HighFits(f: Format, h: nat, p: nat)
    requires f.Valid() && 0 < h < Pow10(f.pmax)
    ensures 0 < Shifted(h, p) < Pow10(Width(f) + p)
  {
    hide Pow10;
    Pow10Add(Width(f), p);
    Pow10Monotone(f.pmax, Width(f));
    MulLt(h, Pow10(Width(f)), Pow10(p));
    MulLt(0, h, Pow10(p));
  }

  // ---- the sticky digit ----

  /** More than twice the precision apart, one digit tells all there is to know of the lower operand. */
  lemma StickyRounds(f: Format, m: Mode, a: Term, b: Term, neg: bool, c: nat, r: DecFloat, s0: set<Flag>, s1: set<Flag>)
    requires f.Valid() && a.coef > 0 && b.coef < Pow10(f.pmax) && a.exp - b.exp > 2 * f.pmax
    requires var q := a.exp - f.pmax - 1;
      && Sum(m, a.neg, At(a, q), b.neg, if b.coef == 0 then 0 else 1, neg, c)
      && Rounded(f, m, ExactOf(f, neg, c, 1, q), r, s0, s1)
    ensures Rounded(f, m, ExactSum(f, m, a, b), r, s0, s1)
  {
    var q, d := a.exp - f.pmax - 1, if b.coef == 0 then 0 else 1;
    StickyHigh(f, a.coef);
    assert Pow10(0) == 1;
    hide Rounded, ExactOf, ExactSum, NumDigits, Pow10, Sum, NumAt, DenAt;
    HighDecides(m, a, b, q, d, neg, c);
    ManyDigits(c, f.pmax + 1, At(a, q), d);
    if b.coef == 0 {
      ReplacedZero(f, m, a, b, q, neg, c, r, s0, s1);
    } else {
      var K := StickyCell(f, a.coef);
      StickyLow(b.coef, b.exp, q, f.pmax);
      ReplacedRounds(f, m, a, b, q, 1, 5, 1, 0, K, neg, c, r, s0, s1);
    }
  }

  lemma StickyHigh(f: Format, c: nat)
    requires c > 0
    ensures Shifted(c, f.pmax + 1) >= Pow10(f.pmax + 1) > 1
  {
    Pow10Grows(0, f.pmax + 1);
    MulLe(1, c, Pow10(f.pmax + 1));
  }

  lemma StickyCell(f: Format, c: nat) returns (K: nat)
    ensures Shifted(c, f.pmax + 1) == K * 5
  {
    K := c * (2 * Pow10(f.pmax));
    assert c * (10 * Pow10(f.pmax)) == c * (2 * Pow10(f.pmax)) * 5;
  }

  lemma StickyLow(b: nat, e: int, q: int, p: nat)
    requires 0 < b < Pow10(p) && q - e >= p
    ensures 0 < NumAt(b, e, q) < 5 * DenAt(e, q)
  {
    Pow10Monotone(p, q - e);
  }

  // ---- the slow path ----

  /** Lays both coefficients out and adds them: hi has the larger exponent and is not zero. */
  method AddAligned(f: Format, acc: array<nat>, hi: DecFloat, lo: DecFloat)
    returns (lsd: nat, carry: bool, exponent: int, ghost k: nat, ghost l: nat)
    requires f.Valid() && hi.Finite? && hi.Fits(f) && lo.Finite? && lo.Fits(f) && hi.exp >= lo.exp && hi.coef > 0
    requires acc.Length == 4 + 2 + 3 * f.pmax + 8
    modifies acc
    ensures lsd == 3 + Width(f) + (hi.exp - exponent) < acc.Length && (carry <==> k != 0) && exponent <= hi.exp
    ensures Total(Width(f), acc[4..lsd + 1], k, hi.neg != lo.neg, hi.coef, l, hi.exp - exponent)
    ensures if hi.exp - lo.exp > 2 * f.pmax then exponent == hi.exp - f.pmax - 1 && l == (if lo.coef == 0 then 0 else 1)
            else exponent == lo.exp && l == lo.coef
  {
    hide Dec, Pow10, Total, Bits, Width, AllDigits;
    var diffsign, overlap := hi.neg != lo.neg, f.pmax - (hi.exp - lo.exp);
    WidthFacts(f);
    LayHigh(f, acc, hi.coef, diffsign);
    if overlap <= 0 {
      var gap := 0 - overlap;
      if diffsign {
        CompleteHigh(acc, Width(f), hi.coef);
      }
      lsd, l := LayGap(f, acc, gap, lo.coef, diffsign, hi.coef);
      carry, k := false, 0;
      exponent := if gap > f.pmax then lo.exp + (gap - 1) else lo.exp;
    } else {
      var word;
      lsd, word, k := AddOverlap(f, acc, hi.exp - lo.exp, lo.coef, diffsign, hi.coef);
      CarryWord(k);
      carry, exponent, l := word != 0, lo.exp, lo.coef;
    }
  }

  /** The exact sum, or one that stands in for it, as an unrounded number. */
  method SumNumber(f: Format, hi: DecFloat, lo: DecFloat, set_: Context) returns (num: BcdNum, ghost l: nat)
    requires Arithmetic(f) && hi.Finite? && hi.Fits(f) && lo.Finite? && lo.Fits(f) && hi.exp >= lo.exp && hi.coef > 0
    ensures fresh(num) && fresh(num.buf) && num.Valid() && num.exponent <= hi.exp < MIN_SPECIAL
    ensures Sum(set_.round, hi.neg, Shifted(hi.coef, hi.exp - num.exponent), lo.neg, l, num.neg, num.Coefficient())
    ensures if hi.exp - lo.exp > 2 * f.pmax then num.exponent == hi.exp - f.pmax - 1 && l == (if lo.coef == 0 then 0 else 1)
            else num.exponent == lo.exp && l == lo.coef
  {
    assert f.Valid() && hi.exp < MIN_SPECIAL;
    hide Arithmetic, Dec, Pow10, Total, Width, Sum;
    var acc := new nat[4 + 2 + 3 * f.pmax + 8];
    var lsd, carry, exponent;
    ghost var k;
    lsd, carry, exponent, k, l := AddAligned(f, acc, hi, lo);
    LowFits(f, lo, l);
    var msd, neg := FinishAdd(f, set_, acc, hi.neg, lo.neg, lsd, carry, k, hi.coef, l, hi.exp - exponent);
    num := new BcdNum(acc, msd, lsd, neg, exponent);
  }

  /** The slow path once the operands are in order. */
  method AddOrderedSlow(f: Format, hi: DecFloat, lo: DecFloat, set_: Context) returns (r: DecFloat)
    requires Arithmetic(f) && hi.Finite? && hi.Fits(f) && lo.Finite? && lo.Fits(f) && hi.exp >= lo.exp && hi.coef > 0
    modifies set_`status
    ensures Rounded(f, set_.round, ExactSum(f, set_.round, Addend(hi), Addend(lo)), r, old(set_.status), set_.status)
  {
    ghost var a, b, m := Addend(hi), Addend(lo), set_.round;
    assert f.Valid();
    hide Arithmetic, Rounded, ExactOf, ExactSum, Dec, Pow10, Sum;
    var num;
    ghost var l;
    num, l := SumNumber(f, hi, lo, set_);
    ghost var neg, c := num.neg, num.Coefficient();
    r := DecFinalize(f, num, set_);
    if hi.exp - lo.exp > 2 * f.pmax {
      StickyRounds(f, m, a, b, neg, c, r, old(set_.status), set_.status);
    } else {
      SumIsExact(f, m, a, b, neg, c);
    }
  }

  lemma LowFits(f: Format, lo: DecFloat, l: nat)
    requires f.Valid() && lo.Finite? && lo.Fits(f) && (l == lo.coef || l <= 1)
    ensures l < Pow10(f.pmax)
  {
    Pow10Grows(0, f.pmax);
  }

  // ---- the operations ----

  /** A zero with the larger exponent: the other operand, with the sign rule for exact zeros. */
  method AddZero(f: Format, hi: DecFloat, lo: DecFloat, set_: Context) returns (r: DecFloat)
    requires f.Valid() && hi.Finite? && hi.coef == 0 && lo.Finite? && lo.Fits(f) && hi.exp >= lo.exp
    ensures Rounded(f, set_.round, ExactSum(f, set_.round, Addend(hi), Addend(lo)), r, set_.status, set_.status)
  {
    ZeroHigh(f, set_.round, Addend(hi), Addend(lo));
    r := lo;
    if hi.neg != lo.neg && lo.IsZero() {
      r := Finite(set_.round.Floor?, lo.coef, lo.exp);
    }
    ExactRounds(f, set_.round, r.neg, r.coef, r.exp, set_.status);
  }

  /** Two finite operands. */
  method AddFinite(f: Format, dfl: DecFloat, dfr: DecFloat, set_: Context) returns (r: DecFloat)
    requires Arithmetic(f) && Decletted(f) && dfl.Finite? && dfl.Fits(f) && dfr.Finite? && dfr.Fits(f)
    modifies set_`status
    ensures Rounded(f, set_.round, ExactSum(f, set_.round, Addend(dfl), Addend(dfr)), r, old(set_.status), set_.status)
  {
    assert f.Valid();
    hide Rounded, ExactOf, ExactSum, Pow10, Arithmetic, Decletted;
    if dfl.exp == dfr.exp && dfl.neg == dfr.neg && Msd(f, dfl.coef) + Msd(f, dfr.coef) <= 8 {
      var c := AddThousands(f, dfl.coef, dfr.coef);
      SmallSum(f, dfl.coef, dfr.coef);
      AlignedExact(f, set_.round, dfl, dfr);
      ExactRounds(f, set_.round, dfl.neg, c, dfl.exp, set_.status);
      return Finite(dfl.neg, c, dfl.exp);
    }
    var hi, lo := dfl, dfr;
    if dfr.exp > dfl.exp {
      hi, lo := dfr, dfl;
      SumCommutes(f, set_.round, Addend(dfl), Addend(dfr));
    }
    if hi.IsZero() {
      r := AddZero(f, hi, lo, set_);
    } else {
      r := AddOrderedSlow(f, hi, lo, set_);
    }
  }

  lemma AlignedExact(f: Format, m: Mode, x: DecFloat, y: DecFloat)
    requires x.Finite? && y.Finite? && x.exp == y.exp && x.neg == y.neg
    ensures ExactSum(f, m, Addend(x), Addend(y)) == ExactOf(f, x.neg, x.coef + y.coef, 1, x.exp)
  {
    assert Pow10(0) == 1;
  }

  /** decFloatAdd. */
  method DecFloatAdd(f: Format, dfl: DecFloat, dfr: DecFloat, set_: Context) returns (r: DecFloat)
    requires Arithmetic(f) && Decletted(f) && dfl.Fits(f) && dfr.Fits(f)
    modifies set_`status
    ensures dfl.Finite? && dfr.Finite? ==>
      Rounded(f, set_.round, ExactSum(f, set_.round, Addend(dfl), Addend(dfr)), r, old(set_.status), set_.status)
    ensures dfl.NaN? || dfr.NaN? ==> r == Propagated(dfl, dfr) && set_.status == old(set_.status) + NaNFlags(dfl, dfr)
    ensures dfl.Infinite? && dfr.Infinite? && dfl.neg != dfr.neg ==>
      r == NaN(false, false, 0) && set_.status == old(set_.status) + {InvalidOperation}
    ensures dfl.Infinite? && (dfr.Finite? || dfr == dfl) ==> r == Infinite(dfl.neg) && set_.status == old(set_.status)
    ensures dfl.Finite? && dfr.Infinite? ==> r == Infinite(dfr.neg) && set_.status == old(set_.status)
  {
    if dfl.NaN? || dfr.NaN? {
      r := DecNaNs(dfl, dfr, set_);
    } else if dfl.Infinite? && dfr.Infinite? && dfl.neg != dfr.neg {
      r := DecInvalid(set_);
    } else if dfl.Infinite? {
      r := dfl;
    } else if dfr.Infinite? {
      r := dfr;
    } else {
      hide Rounded, ExactSum;
      r := AddFinite(f, dfl, dfr, set_);
    }
  }

  /** The operand with its sign flipped; NaNs keep theirs. */
  function Negated(x: DecFloat): DecFloat {
    match x
    case Finite(n, c, e) => Finite(!n, c, e)
    case Infinite(n) => Infinite(!n)
    case NaN(_, _, _) => x
  }

  /** decFloatSubtract: the left operand plus the negated right one. */
  method DecFloatSubtract(f: Format, dfl: DecFloat, dfr: DecFloat, set_: Context) returns (r: DecFloat)
    requires Arithmetic(f) && Decletted(f) && dfl.Fits(f) && dfr.Fits(f)
    modifies set_`status
    ensures dfl.Finite? && dfr.Finite? ==>
      Rounded(f, set_.round, ExactSum(f, set_.round, Addend(dfl), Addend(Negated(dfr))), r, old(set_.status), set_.status)
    ensures dfl.NaN? || dfr.NaN? ==> r == Propagated(dfl, dfr) && set_.status == old(set_.status) + NaNFlags(dfl, dfr)
    ensures dfl.Infinite? && dfr.Infinite? && dfl.neg == dfr.neg ==>
      r == NaN(false, false, 0) && set_.status == old(set_.status) + {InvalidOperation}
    ensures dfl.Infinite? && (dfr.Finite? || (dfr.Infinite? && dfr.neg != dfl.neg)) ==>
      r == Infinite(dfl.neg) && set_.status == old(set_.status)
    ensures dfl.Finite? && dfr.Infinite? ==> r == Infinite(!dfr.neg) && set_.status == old(set_.status)
  {
    hide Rounded, ExactSum;
    if dfr.NaN? {
      r := DecFloatAdd(f, dfl, dfr, set_);
      return;
    }
    r := DecFloatAdd(f, dfl, Negated(dfr), set_);
  }

  // ---- what a sum and a difference are ----

  /** What is rounded is the sum of the values; an exact zero has the common sign of the operands, or else is positive
      except when rounding toward minus infinity (IEEE 754, section 6.3). */
  lemma SumByValue(f: Format, m: Mode, x: DecFloat, y: DecFloat, r: DecFloat, s0: set<Flag>, s1: set<Flag>)
    requires f.Valid() && x.Finite? && x.Fits(f) && y.Finite? && y.Fits(f)
    requires Rounded(f, m, ExactSum(f, m, Addend(x), Addend(y)), r, s0, s1)
    ensures var e := if x.exp <= y.exp then x.exp else y.exp;
      var v := SignedUnits(x, e) + SignedUnits(y, e);
      && (v > 0 ==> Rounded(f, m, ExactOf(f, false, v, 1, e), r, s0, s1))
      && (v < 0 ==> Rounded(f, m, ExactOf(f, true, 0 - v, 1, e), r, s0, s1))
      && (v == 0 ==> r == Finite(if x.neg == y.neg then x.neg else m == Floor, 0, e) && s1 == s0)
  {
    hide Rounded, ExactOf, Pow10;
    var e := Min(x.exp, y.exp);
    if SignedUnits(x, e) + SignedUnits(y, e) == 0 {
      OnePower(f);
      ExactFits(f, m, SumNeg(m, Addend(x), Addend(y)), 0, e, r, s0, s1);
    }
  }

  lemma OnePower(f: Format)
    ensures 0 < Pow10(f.pmax)
  {
  }

  /** The same of the difference: a zero from operands of one sign is positive except toward minus infinity. */
  lemma DifferenceByValue(f: Format, m: Mode, x: DecFloat, y: DecFloat, r: DecFloat, s0: set<Flag>, s1: set<Flag>)
    requires f.Valid() && x.Finite? && x.Fits(f) && y.Finite? && y.Fits(f)
    requires Rounded(f, m, ExactSum(f, m, Addend(x), Addend(Negated(y))), r, s0, s1)
    ensures var e := if x.exp <= y.exp then x.exp else y.exp;
      var v := SignedUnits(x, e) - SignedUnits(y, e);
      && (v > 0 ==> Rounded(f, m, ExactOf(f, false, v, 1, e), r, s0, s1))
      && (v < 0 ==> Rounded(f, m, ExactOf(f, true, 0 - v, 1, e), r, s0, s1))
      && (v == 0 ==> r == Finite(if x.neg != y.neg then x.neg else m == Floor, 0, e) && s1 == s0)
  {
    hide Rounded, ExactOf, Pow10, ExactSum, Addend;
    SumByValue(f, m, x, Negated(y), r, s0, s1);
  }
}
