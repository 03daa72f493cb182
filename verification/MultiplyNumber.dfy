/** The product as an unrounded number, and decFloatMultiply. */
module MultiplyNumber {
  import opened Powers
  import opened Digits
  import opened Billions
  import opened Formats
  import opened Rounding
  import opened Finalize
  import opened Specials
  import opened LongDivision
  import opened DivideLoop
  import opened QuotientLayout
  import opened Multiply

  /** Leading zeros every product has in 2*OpLen units (LEADZEROS). */
  function LeadZeros(f: Format): nat
    requires Arithmetic(f)
  {
    18 * f.OpLen() - 2 * f.pmax
  }

  lemma ProductFits(f: Format, cl: nat, cr: nat)
    requires Arithmetic(f) && cl < Pow10(f.pmax) && cr < Pow10(f.pmax)
    ensures 0 <= cl * cr < Pow10(2 * f.pmax) <= PowB(2 * f.OpLen())
  {
    Pow10Add(f.pmax, f.pmax);
    PowBIsPow10(2 * f.OpLen());
    Pow10Monotone(2 * f.pmax, 18 * f.OpLen());
    MulLe(0, cl, cr);
    MulLe(cl, Pow10(f.pmax), cr);
    MulLt(cr, Pow10(f.pmax), Pow10(f.pmax));
  }

  /** Finds the leading non-zero unit, or the last one if all are zero. */
  method LeadingUnit(acc: array<nat>) returns (pa: nat)
    requires acc.Length > 1 && AllUnits(acc[..])
    ensures pa < acc.Length && AllUnits(acc[0..pa + 1]) && Bill(acc[0..pa + 1]) == Bill(acc[..])
    ensures acc[acc.Length - 1] != 0 ==> pa == acc.Length - 1
    ensures Bill(acc[..]) > 0 ==> NumDigits(Bill(acc[..])) >= 9 * pa + 1
  {
    pa := acc.Length - 1;
    if acc[pa] == 0 {
      pa := pa - 1;
      while acc[pa] == 0 && pa != 0
        invariant 0 <= pa < acc.Length - 1 && forall i :: pa < i < acc.Length ==> acc[i] == 0
        decreases pa
      {
        pa := pa - 1;
      }
    }
    ghost var s := acc[..];
    BillLeading(s, pa + 1);
    assert acc[0..pa + 1] == s[..pa + 1];
    TopUnit(s[..pa + 1]);
  }

  /** Lays the product's units out in BCD, without leading zero units or, if there are
      none, without the digits that are zero in every product. */
  method LayProduct(f: Format, acc: array<nat>, bcdacc: array<nat>, off: nat) returns (msd: nat, lsd: nat)
    requires Compiled(f) && acc != bcdacc && acc.Length == 2 * f.OpLen() && off + 18 * f.OpLen() <= bcdacc.Length
    requires AllUnits(acc[..]) && Bill(acc[..]) < Pow10(2 * f.pmax)
    modifies bcdacc
    ensures off <= msd <= lsd < off + 18 * f.OpLen() && AllDigits(bcdacc[msd..lsd + 1])
    ensures Dec(bcdacc[msd..lsd + 1]) == Bill(acc[..])
    ensures Bill(acc[..]) > 0 ==> lsd <= off + 7 + NumDigits(Bill(acc[..]))
    ensures forall i :: 0 <= i < bcdacc.Length && !(off <= i < off + 18 * f.OpLen()) ==> bcdacc[i] == old(bcdacc[i])
  {
    hide Bill, Dec, Pow10, NumDigits, AllDigits, AllUnits;
    var pa := LeadingUnit(acc);
    var skip := if acc[acc.Length - 1] != 0 then LeadZeros(f) else 0;
    PutUnits(acc, 0, pa + 1, bcdacc, off);
    msd, lsd := off + skip, off + 9 * (pa + 1) - 1;
    ghost var t := bcdacc[off..lsd + 1];
    SkipLead(f, t, skip, pa + 1);
    assert bcdacc[msd..lsd + 1] == t[skip..];
  }

  lemma SkipLead(f: Format, t: seq<nat>, skip: nat, k: nat)
    requires Compiled(f) && |t| == 9 * k && k > 0 && AllDigits(t) && Dec(t) < Pow10(2 * f.pmax)
    requires skip == 0 || (skip == LeadZeros(f) && k == 2 * f.OpLen())
    ensures skip < |t| && AllDigits(t[skip..]) && Dec(t[skip..]) == Dec(t)
  {
    hide Dec, Pow10;
    if skip == 0 {
      assert t[0..] == t;
    } else {
      DecBelow(t, 2 * f.pmax);
    }
  }

  /** A non-zero top unit brings at least one digit to each of the lower units' nine. */
  lemma TopUnit(s: seq<nat>)
    requires s != [] && (s[|s| - 1] != 0 || |s| == 1)
    ensures Bill(s) > 0 ==> NumDigits(Bill(s)) >= 9 * |s| - 8
  {
    if s[|s| - 1] != 0 {
      BillTop(s);
      PowBIsPow10(|s| - 1);
      Pow10Order(9 * (|s| - 1), NumDigits(Bill(s)));
    }
  }

  /** The exact product (decFiniteMultiply), its coefficient laid out from bcdacc[off]. */
  method FiniteMultiply(f: Format, bcdacc: array<nat>, off: nat, dfl: DecFloat, dfr: DecFloat) returns (num: BcdNum)
    requires Compiled(f) && off + 18 * f.OpLen() <= bcdacc.Length
    requires dfl.Finite? && dfl.Fits(f) && dfr.Finite? && dfr.Fits(f)
    modifies bcdacc
    ensures fresh(num) && num.buf == bcdacc && num.Valid() && off <= num.msd && num.lsd < off + 18 * f.OpLen()
    ensures num.neg == (dfl.neg != dfr.neg) && num.exponent == dfl.exp + dfr.exp
    ensures num.Coefficient() == dfl.coef * dfr.coef < Pow10(2 * f.pmax)
    ensures num.Coefficient() > 0 ==> num.lsd <= off + 7 + NumDigits(num.Coefficient())
  {
    hide Bill, PowB, Pow10, Dec, Columns, NumDigits, AllUnits, AllDigits;
    var l := f.OpLen();
    var bufl, bufr := new nat[l], new nat[l];
    GetCoeffBill(f, dfl.coef, bufl, 0);
    GetCoeffBill(f, dfr.coef, bufr, 0);
    assert bufl[0..l] == bufl[..] && bufr[0..l] == bufr[..];
    var accl, acc := new nat[2 * l], new nat[2 * l];
    ProductFits(f, dfl.coef, dfr.coef);
    Accumulate(accl, bufl[..], bufr[..]);
    Resolve(l, accl, acc, dfl.coef * dfr.coef);
    var msd, lsd := LayProduct(f, acc, bcdacc, off);
    num := new BcdNum(bcdacc, msd, lsd, dfl.neg != dfr.neg, dfl.exp + dfr.exp);
  }

  /** decFloatMultiply: the exact product, rounded once. */
  method DecFloatMultiply(f: Format, dfl: DecFloat, dfr: DecFloat, set_: Context) returns (r: DecFloat)
    requires Compiled(f) && dfl.Fits(f) && dfr.Fits(f)
    modifies set_`status
    ensures dfl.Finite? && dfr.Finite? ==>
      Rounded(f, set_.round, ExactOf(f, dfl.neg != dfr.neg, dfl.coef * dfr.coef, 1, dfl.exp + dfr.exp), r,
              old(set_.status), set_.status)
    ensures dfl.NaN? || dfr.NaN? ==> r == Propagated(dfl, dfr) && set_.status == old(set_.status) + NaNFlags(dfl, dfr)
    ensures (dfl.Infinite? && dfr.IsZero()) || (dfl.IsZero() && dfr.Infinite?) ==>
      r == DEFAULT_NAN && set_.status == old(set_.status) + {InvalidOperation}
    ensures !dfl.NaN? && !dfr.NaN? && !dfl.IsZero() && !dfr.IsZero() && (dfl.Infinite? || dfr.Infinite?) ==>
      r == Infinite(dfl.neg != dfr.neg) && set_.status == old(set_.status)
  {
    if !dfl.Finite? || !dfr.Finite? {
      if dfl.NaN? || dfr.NaN? {
        r := DecNaNs(dfl, dfr, set_);
        return;
      }
      if (dfl.Infinite? && dfr.IsZero()) || (dfr.Infinite? && dfl.IsZero()) {
        r := DecInvalid(set_);
        return;
      }
      return Infinite(dfl.neg != dfr.neg);
    }
    hide Rounded, ExactOf, Dec, Pow10;
    var bcdacc := new nat[18 * f.OpLen() + 1];
    var num := FiniteMultiply(f, bcdacc, 0, dfl, dfr);
    r := DecFinalize(f, num, set_);
  }
}
