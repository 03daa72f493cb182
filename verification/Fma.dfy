/** decFloatFMA: the product and the sum rounded once. */
module Fma {
  import opened Powers
  import opened Digits
  import opened Formats
  import opened Rounding
  import opened Meaning
  import opened Specials
  import opened Finalize
  import opened Coefficients
  import opened Multiply
  import opened MultiplyNumber
  import opened Sums
  import opened FmaSum
  import opened FmaShorten

  /** The accumulator: product, a carry, and room for the final addition (FMALEN). */
  function FmaLen(f: Format): nat {
    (1 + (18 * f.OpLen() + 1) + f.pmax + 2 + 3) / 4 * 4
  }

  /** The product of two finite data, as a term. */
  function Product(l: DecFloat, r: DecFloat): Term
    requires l.Finite? && r.Finite?
  {
    MulLe(0, l.coef, r.coef);
    Term(l.neg != r.neg, l.coef * r.coef, l.exp + r.exp)
  }

  function Addend(x: DecFloat): Term
    requires x.Finite?
  {
    Term(x.neg, x.coef, x.exp)
  }

  /** The product is so long that the addend is shortened although the two overlap. */
  predicate Overlaps(f: Format, dfl: DecFloat, dfr: DecFloat, dff: DecFloat)
    requires dfl.Finite? && dfr.Finite? && dff.Finite?
  {
    var a, b := Product(dfl, dfr), Addend(dff);
    a.coef > 0 && a.exp >= b.exp && Shortens(f, a, b) && !Clear(a, b)
  }

  /** An operand as the addition needs it: trimmed, and placed where the sum cannot overrun it. */
  ghost predicate Ready(f: Format, acc: array<nat>, num: BcdNum)
    reads num, num.buf
  {
    && num.Valid() && num.lsd + 1 - num.msd == NumDigits(num.Coefficient())
    && -400000 <= num.exponent <= 400000
    && (num.buf[num.msd] == 0 <==> num.Coefficient() == 0)
    && NumDigits(num.Coefficient()) <= 2 * f.pmax
    && (num.buf == acc ==> num.lsd <= 18 * f.OpLen())
    && (num.buf == acc && num.Coefficient() > 0 ==> num.lsd <= 8 + NumDigits(num.Coefficient()))
    && (num.buf != acc ==> NumDigits(num.Coefficient()) <= f.pmax)
  }

  /** A zero higher operand leaves the lower one. */
  lemma ZeroHigh(f: Format, m: Mode, a: Term, b: Term)
    requires a.exp >= b.exp && a.coef == 0
    ensures ExactSum(f, m, a, b) ==
      ExactOf(f, if b.coef == 0 && a.neg != b.neg then m.Floor? else b.neg, b.coef, 1, b.exp)
  {
    assert At(a, b.exp) == 0 && At(b, b.exp) == b.coef;
  }

  lemma SumIsExact(f: Format, m: Mode, a: Term, b: Term, neg: bool, c: nat)
    requires a.exp >= b.exp && Sum(m, a.neg, At(a, b.exp), b.neg, b.coef, neg, c)
    ensures ExactSum(f, m, a, b) == ExactOf(f, neg, c, 1, b.exp)
  {
    assert At(b, b.exp) == b.coef;
  }

  /** The first digit of a number. */
  function LeadDigit(c: nat): nat {
    c / Pow10(NumDigits(c) - 1)
  }

  lemma LeadDigitOf(s: seq<nat>)
    requires s != [] && AllDigits(s) && |s| == NumDigits(Dec(s))
    ensures LeadDigit(Dec(s)) == s[0]
  {
    DecCut(s, 1);
    assert s[..1] == [s[0]];
    DecOne(s[0]);
    DecBound(s[1..]);
    DivModUnique(Dec(s), Pow10(|s| - 1), s[0], Dec(s[1..]));
  }

  /** What the code adds in place of a shortened operand. */
  function Replacement(f: Format, a: Term, b: Term): Term {
    Term(b.neg, LeadDigit(b.coef), NewExp(f, a.exp, NumDigits(a.coef)))
  }

  /** A higher operand with at most pmax digits is always clear of what is shortened. */
  lemma ShortIsClear(f: Format, a: Term, b: Term)
    requires a.exp >= b.exp && Shortens(f, a, b) && NumDigits(a.coef) <= f.pmax
    ensures Clear(a, b)
  {
  }

  /** Shortens the lower operand to its leading digit when the guard asks for it. */
  method Shorten(f: Format, hi: BcdNum, lo: BcdNum)
    requires hi != lo && hi.Valid() && lo.Valid() && lo.lsd + 1 - lo.msd == NumDigits(lo.Coefficient())
    requires hi.lsd + 1 - hi.msd == NumDigits(hi.Coefficient())
    requires lo.buf[lo.msd] == 0 <==> lo.Coefficient() == 0
    requires hi.exponent >= lo.exponent && hi.exponent < MIN_SPECIAL && f.Valid()
    modifies lo`lsd, lo`exponent
    ensures lo.Valid() && lo.msd <= lo.lsd <= old(lo.lsd) && hi.exponent >= lo.exponent
    ensures var a, b := TermOf(hi), old(TermOf(lo));
      if Shortens(f, a, b) then
        lo.lsd == lo.msd && TermOf(lo) == Replacement(f, a, b) && TermOf(lo).coef <= 9 && (TermOf(lo).coef == 0 <==> b.coef == 0)
      else lo.lsd == old(lo.lsd) && TermOf(lo) == b
  {
    hide Dec, Pow10, NumDigits, LeadDigit;
    var padding := hi.exponent - lo.exponent;
    if padding != 0 {
      var hilen, lolen := hi.lsd - hi.msd + 1, lo.lsd - lo.msd + 1;
      if hilen + padding - lolen > f.pmax + 2 {
        var newexp := Min(hi.exponent, hi.exponent + hilen - f.pmax) - 3;
        FirstDigitKept(lo.buf[..], lo.msd, lo.lsd);
        lo.lsd := lo.msd;
        lo.exponent := newexp;
      }
    }
  }

  /** The first digit of a trimmed number, on its own. */
  lemma FirstDigitKept(s: seq<nat>, msd: nat, lsd: nat)
    requires msd <= lsd < |s| && AllDigits(s[msd..lsd + 1]) && lsd + 1 - msd == NumDigits(Dec(s[msd..lsd + 1]))
    ensures s[msd] <= 9 && AllDigits(s[msd..msd + 1]) && Dec(s[msd..msd + 1]) == s[msd] == LeadDigit(Dec(s[msd..lsd + 1]))
  {
    assert s[msd..lsd + 1][0] == s[msd];
    LeadDigitOf(s[msd..lsd + 1]);
    assert s[msd..msd + 1] == [s[msd]];
    DecOne(s[msd]);
  }

  /** The operand that is really added. */
  function Added(f: Format, a: Term, b: Term): Term
    requires a.exp >= b.exp
  {
    if Shortens(f, a, b) then Replacement(f, a, b) else b
  }

  /** Everything the addition writes fits in the accumulator, and nothing unread is overwritten. */
  lemma Room(f: Format, a: Term, b: Term, hlsd: nat, inAcc: bool)
    requires Compiled(f) && a.exp >= b.exp
    requires var hilen, lolen := NumDigits(a.coef), NumDigits(b.coef);
      if inAcc then hilen <= 2 * f.pmax && lolen <= f.pmax && hlsd <= 18 * f.OpLen() && hlsd <= 8 + hilen
      else hilen <= f.pmax && lolen <= 2 * f.pmax
    ensures var p := a.exp - Added(f, a, b).exp;
      0 <= p && NumDigits(a.coef) + p < FmaLen(f) && NumDigits(b.coef) < FmaLen(f) && (inAcc ==> hlsd + p < FmaLen(f))
  {
    assert 18 * f.OpLen() >= 2 * f.pmax + 2 && f.pmax >= 9;
    assert FmaLen(f) >= 18 * f.OpLen() + f.pmax + 4;
    hide Compiled, FmaLen, NumDigits, Format.OpLen;
  }

  /** What shortening and adding two operands need to know of them. */
  lemma ReadyPair(f: Format, acc: array<nat>, hi: BcdNum, lo: BcdNum)
    requires Compiled(f) && acc.Length == FmaLen(f) && hi.buf != lo.buf && (acc == hi.buf || acc == lo.buf)
    requires Ready(f, acc, hi) && Ready(f, acc, lo) && hi.exponent >= lo.exponent && hi.Coefficient() > 0
    ensures f.Valid() && hi.Valid() && lo.Valid() && hi.exponent < MIN_SPECIAL
    ensures hi.lsd + 1 - hi.msd == NumDigits(hi.Coefficient()) && lo.lsd + 1 - lo.msd == NumDigits(lo.Coefficient())
    ensures lo.buf[lo.msd] == 0 <==> lo.Coefficient() == 0
    ensures TermOf(hi) == Term(hi.neg, hi.Coefficient(), hi.exponent) && TermOf(lo) == Term(lo.neg, lo.Coefficient(), lo.exponent)
    ensures var a, b, b' := TermOf(hi), TermOf(lo), Added(f, TermOf(hi), TermOf(lo));
      && b' == (if Shortens(f, a, b) then Replacement(f, a, b) else b)
      && b'.exp <= a.exp && hi.lsd + 1 - hi.msd + a.exp - b'.exp < acc.Length && lo.lsd + 1 - lo.msd < acc.Length
      && (hi.buf == acc ==> hi.lsd + a.exp - b'.exp < acc.Length)
    ensures lo.buf == acc ==> lo.lsd + 4 < acc.Length
  {
    Room(f, TermOf(hi), TermOf(lo), hi.lsd, hi.buf == acc);
    assert f.pmax <= 1000;
    hide Dec, Pow10, NumDigits, Shortens, Replacement;
  }

  /** The same of a number whose fields are known. */
  lemma TermFields(num: BcdNum)
    requires num.Valid()
    ensures TermOf(num) == Term(num.neg, num.Coefficient(), num.exponent)
  {
  }

  /** Shortening and addition, up to the final rounding. */
  method ShortenAndAdd(f: Format, acc: array<nat>, hi: BcdNum, lo: BcdNum, set_: Context)
    requires Compiled(f) && acc.Length == FmaLen(f) && hi != lo && hi.buf != lo.buf && (acc == hi.buf || acc == lo.buf)
    requires Ready(f, acc, hi) && Ready(f, acc, lo) && hi.exponent >= lo.exponent && hi.Coefficient() > 0
    modifies hi.buf, lo.buf, lo
    ensures lo.buf == acc && lo.Valid()
    ensures var a, b := old(TermOf(hi)), old(TermOf(lo));
      var b' := Added(f, a, b);
      && b'.exp <= a.exp && lo.exponent == b'.exp
      && Sum(set_.round, a.neg, At(a, b'.exp), b'.neg, b'.coef, lo.neg, lo.Coefficient())
      && (Shortens(f, a, b) ==> b'.coef <= 9 && (b'.coef == 0 <==> b.coef == 0))
  {
    hide *;
    ReadyPair(f, acc, hi, lo);
    Shorten(f, hi, lo);
    TermFields(hi);
    TermFields(lo);
    AlignedSum(set_, acc, hi, lo);
  }

  /** The addition of a non-zero higher operand and the final rounding. */
  method AddAndFinalize(f: Format, acc: array<nat>, hi: BcdNum, lo: BcdNum, set_: Context) returns (r: DecFloat)
    requires Compiled(f) && acc.Length == FmaLen(f) && hi != lo && hi.buf != lo.buf && (acc == hi.buf || acc == lo.buf)
    requires Ready(f, acc, hi) && Ready(f, acc, lo) && hi.exponent >= lo.exponent && hi.Coefficient() > 0
    modifies hi.buf, lo.buf, lo, set_`status
    ensures var a, b, m := old(TermOf(hi)), old(TermOf(lo)), set_.round;
      && Rounded(f, m, ExactSum(f, m, a, Added(f, a, b)), r, old(set_.status), set_.status)
      && (!Shortens(f, a, b) || Clear(a, b) ==> Rounded(f, m, ExactSum(f, m, a, b), r, old(set_.status), set_.status))
  {
    ghost var a, b, m := TermOf(hi), TermOf(lo), set_.round;
    ghost var b' := Added(f, a, b);
    ShortenAndAdd(f, acc, hi, lo, set_);
    assert f.Valid() && (Shortens(f, a, b) ==> b'.exp == NewExp(f, a.exp, NumDigits(a.coef)));
    hide Rounded, ExactOf, ExactSum, Dec, Pow10, NumDigits, Sum, LeadDigit, Shortens, Added, Clear, Compiled, At, Ready, NewExp;
    ghost var neg, c := lo.neg, lo.Coefficient();
    SumIsExact(f, m, a, b', neg, c);
    r := DecFinalize(f, lo, set_);
    if Shortens(f, a, b) && Clear(a, b) {
      ShortenedRounds(f, m, a, b, b'.coef, neg, c, r, old(set_.status), set_.status);
    }
  }

  /** Trims an operand's leading zeros. */
  method MakeReady(f: Format, acc: array<nat>, num: BcdNum)
    requires num.Valid() && -400000 <= num.exponent <= 400000 && NumDigits(num.Coefficient()) <= 2 * f.pmax
    requires num.buf == acc ==> num.lsd <= 18 * f.OpLen()
    requires num.buf == acc && num.Coefficient() > 0 ==> num.lsd <= 8 + NumDigits(num.Coefficient())
    requires num.buf != acc ==> NumDigits(num.Coefficient()) <= f.pmax
    modifies num`msd
    ensures Ready(f, acc, num) && TermOf(num) == old(TermOf(num))
  {
    hide Dec, NumDigits;
    Strip(num);
  }

  /** The exact product in the accumulator, ready to be added. */
  method ProductOperand(f: Format, dfl: DecFloat, dfr: DecFloat) returns (acc: array<nat>, mul: BcdNum)
    requires Compiled(f) && dfl.Finite? && dfl.Fits(f) && dfr.Finite? && dfr.Fits(f)
    ensures fresh(acc) && acc.Length == FmaLen(f) && fresh(mul) && mul.buf == acc
    ensures Ready(f, acc, mul) && TermOf(mul) == Product(dfl, dfr)
  {
    acc := new nat[FmaLen(f)];
    mul := FiniteMultiply(f, acc, 1, dfl, dfr);
    DigitLimits(f, mul.Coefficient(), 0);
    assert -400000 <= mul.exponent <= 400000;
    hide Dec, Pow10, NumDigits, Ready, Compiled, FmaLen;
    MakeReady(f, acc, mul);
  }

  /** The addend's digits in a buffer of their own. */
  method AddendOperand(f: Format, acc: array<nat>, dff: DecFloat) returns (fin: BcdNum)
    requires Compiled(f) && dff.Finite? && dff.Fits(f)
    ensures fresh(fin) && fresh(fin.buf)
    ensures Ready(f, acc, fin) && TermOf(fin) == Addend(dff) && NumDigits(dff.coef) <= f.pmax
  {
    var coe := new nat[(f.pmax + 3) / 4 * 4];
    DigitLimits(f, 0, dff.coef);
    assert -400000 <= dff.exp <= 400000 && f.pmax > 0;
    hide Dec, Pow10, NumDigits, Ready, Compiled;
    GetCoeff(dff.coef, f.pmax, coe, 0);
    fin := new BcdNum(coe, 0, f.pmax - 1, dff.neg, dff.exp);
    assert fin.Coefficient() == dff.coef;
    MakeReady(f, acc, fin);
  }

  lemma FmaTerms(f: Format, dfl: DecFloat, dfr: DecFloat, dff: DecFloat)
    requires Compiled(f) && dfl.Finite? && dfr.Finite? && dff.Finite?
    ensures f.Valid() && Addend(dff).coef == dff.coef
    ensures var a, b := Product(dfl, dfr), Addend(dff);
      Overlaps(f, dfl, dfr, dff) <==> a.coef > 0 && a.exp >= b.exp && Shortens(f, a, b) && !Clear(a, b)
  {
  }

  lemma ReadyTerm(f: Format, acc: array<nat>, num: BcdNum)
    requires Ready(f, acc, num)
    ensures num.Valid() && TermOf(num).exp == num.exponent
  {
  }

  /** The finite path of decFloatFMA. */
  method FmaFinite(f: Format, dfl: DecFloat, dfr: DecFloat, dff: DecFloat, set_: Context) returns (r: DecFloat)
    requires Compiled(f) && dfl.Finite? && dfl.Fits(f) && dfr.Finite? && dfr.Fits(f) && dff.Finite? && dff.Fits(f)
    modifies set_`status
    ensures var a, b, m := Product(dfl, dfr), Addend(dff), set_.round;
      && (!Overlaps(f, dfl, dfr, dff) ==> Rounded(f, m, ExactSum(f, m, a, b), r, old(set_.status), set_.status))
      && (Overlaps(f, dfl, dfr, dff) ==>
            Rounded(f, m, ExactSum(f, m, a, Replacement(f, a, b)), r, old(set_.status), set_.status))
  {
    hide *;
    FmaTerms(f, dfl, dfr, dff);
    ghost var a, b, m := Product(dfl, dfr), Addend(dff), set_.round;
    var acc, mul := ProductOperand(f, dfl, dfr);
    var fin := AddendOperand(f, acc, dff);
    ReadyTerm(f, acc, mul);
    ReadyTerm(f, acc, fin);
    if mul.exponent >= fin.exponent {
      r := AddOrdered(f, acc, mul, fin, set_);
    } else {
      SumCommutes(f, m, a, b);
      ShortAddend(f, a, b);
      r := AddOrdered(f, acc, fin, mul, set_);
    }
  }

  lemma DigitLimits(f: Format, c: nat, d: nat)
    requires f.Valid() && c < Pow10(2 * f.pmax) && d < Pow10(f.pmax)
    ensures NumDigits(c) <= 2 * f.pmax && NumDigits(d) <= f.pmax
  {
    DigitsAtMost(c, 2 * f.pmax);
    DigitsAtMost(d, f.pmax);
  }

  /** An addend above the product is too short to overlap what is shortened. */
  lemma ShortAddend(f: Format, a: Term, b: Term)
    requires b.exp >= a.exp && NumDigits(b.coef) <= f.pmax
    ensures Shortens(f, b, a) ==> Clear(b, a)
  {
  }

  /** The operand with the higher exponent first; a zero there leaves the other. */
  method AddOrdered(f: Format, acc: array<nat>, hi: BcdNum, lo: BcdNum, set_: Context) returns (r: DecFloat)
    requires Compiled(f) && acc.Length == FmaLen(f) && hi != lo && hi.buf != lo.buf && (acc == hi.buf || acc == lo.buf)
    requires Ready(f, acc, hi) && Ready(f, acc, lo) && hi.exponent >= lo.exponent
    modifies hi.buf, lo.buf, lo, set_`status
    ensures var a, b, m := old(TermOf(hi)), old(TermOf(lo)), set_.round;
      && (a.coef > 0 && Shortens(f, a, b) ==>
            Rounded(f, m, ExactSum(f, m, a, Replacement(f, a, b)), r, old(set_.status), set_.status))
      && (a.coef == 0 || !Shortens(f, a, b) || Clear(a, b) ==>
            Rounded(f, m, ExactSum(f, m, a, b), r, old(set_.status), set_.status))
  {
    ghost var a, b := TermOf(hi), TermOf(lo);
    hide Rounded, ExactOf, ExactSum, Dec, Pow10, NumDigits, LeadDigit, Shortens, Clear;
    if hi.buf[hi.msd] == 0 {
      ZeroHigh(f, set_.round, a, b);
      if hi.neg != lo.neg && lo.buf[lo.msd] == 0 {
        lo.neg := set_.round.Floor?;
      }
      r := DecFinalize(f, lo, set_);
    } else {
      r := AddAndFinalize(f, acc, hi, lo, set_);
    }
  }

  /** The special-operand path of decFloatFMA. */
  method FmaSpecial(dfl: DecFloat, dfr: DecFloat, dff: DecFloat, set_: Context) returns (r: DecFloat)
    requires !dfl.Finite? || !dfr.Finite? || !dff.Finite?
    modifies set_`status
    ensures dfl.Signaling() || dfr.Signaling() || (!dff.Signaling() && (dfl.NaN? || dfr.NaN?)) ==>
      r == Propagated(dfl, dfr) && set_.status == old(set_.status) + NaNFlags(dfl, dfr)
    ensures dff.Signaling() && !dfl.Signaling() && !dfr.Signaling() ==>
      r == NaN(dff.neg, false, dff.payload) && set_.status == old(set_.status) + {InvalidOperation}
    ensures dff.NaN? && !dff.Signaling() && !dfl.NaN? && !dfr.NaN? ==> r == dff && set_.status == old(set_.status)
    ensures !dff.NaN? && ((dfl.Infinite? && dfr.Finite? && dfr.coef == 0) || (dfl.Finite? && dfl.coef == 0 && dfr.Infinite?)) ==>
      r == NaN(false, false, 0) && set_.status == old(set_.status) + {InvalidOperation}
    ensures !dff.NaN? && (if dfl.Infinite? then dfr.Infinite? || (dfr.Finite? && dfr.coef > 0) else dfl.Finite? && dfl.coef > 0 && dfr.Infinite?) ==>
      if dff.Infinite? && dff.neg != (dfl.neg != dfr.neg)
      then r == NaN(false, false, 0) && set_.status == old(set_.status) + {InvalidOperation}
      else r == Infinite(dfl.neg != dfr.neg) && set_.status == old(set_.status)
    ensures dff.Infinite? && dfl.Finite? && dfr.Finite? ==> r == Infinite(dff.neg) && set_.status == old(set_.status)
  {
    if dfl.Signaling() || dfr.Signaling() {
      r := DecNaNs(dfl, dfr, set_);
    } else if dff.Signaling() {
      r := DecNaNs(dff, dff, set_);
    } else if dfl.NaN? || dfr.NaN? {
      r := DecNaNs(dfl, dfr, set_);
    } else if dff.NaN? {
      r := DecNaNs(dff, dff, set_);
    } else {
      var sign := dfl.neg != dfr.neg;
      var proxy := Finite(sign, 0, 0);
      if dfl.Infinite? {
        if dfr.IsZero() {
          r := DecInvalid(set_);
          return;
        }
        proxy := Infinite(sign);
      } else if dfr.Infinite? {
        if dfl.IsZero() {
          r := DecInvalid(set_);
          return;
        }
        proxy := Infinite(sign);
      }
      if !dff.Infinite? {
        return proxy;
      }
      if !proxy.Infinite? {
        return dff;
      }
      if dff.neg != proxy.neg {
        r := DecInvalid(set_);
        return;
      }
      r := proxy;
    }
  }

  /** decFloatFMA on any operands. */
  method DecFloatFMA(f: Format, dfl: DecFloat, dfr: DecFloat, dff: DecFloat, set_: Context) returns (r: DecFloat)
    requires Compiled(f) && dfl.Fits(f) && dfr.Fits(f) && dff.Fits(f)
    modifies set_`status
    ensures dfl.Finite? && dfr.Finite? && dff.Finite? && !Overlaps(f, dfl, dfr, dff) ==>
      Rounded(f, set_.round, ExactSum(f, set_.round, Product(dfl, dfr), Addend(dff)), r, old(set_.status), set_.status)
    ensures dfl.Finite? && dfr.Finite? && dff.Finite? && Overlaps(f, dfl, dfr, dff) ==>
      Rounded(f, set_.round, ExactSum(f, set_.round, Product(dfl, dfr), Replacement(f, Product(dfl, dfr), Addend(dff))), r,
              old(set_.status), set_.status)
    ensures dfl.Signaling() || dfr.Signaling() || (!dff.Signaling() && (dfl.NaN? || dfr.NaN?)) ==>
      r == Propagated(dfl, dfr) && set_.status == old(set_.status) + NaNFlags(dfl, dfr)
    ensures dff.Signaling() && !dfl.Signaling() && !dfr.Signaling() ==>
      r == NaN(dff.neg, false, dff.payload) && set_.status == old(set_.status) + {InvalidOperation}
    ensures dff.NaN? && !dff.Signaling() && !dfl.NaN? && !dfr.NaN? ==> r == dff && set_.status == old(set_.status)
    ensures !dff.NaN? && ((dfl.Infinite? && dfr.Finite? && dfr.coef == 0) || (dfl.Finite? && dfl.coef == 0 && dfr.Infinite?)) ==>
      r == NaN(false, false, 0) && set_.status == old(set_.status) + {InvalidOperation}
    ensures !dff.NaN? && (if dfl.Infinite? then dfr.Infinite? || (dfr.Finite? && dfr.coef > 0) else dfl.Finite? && dfl.coef > 0 && dfr.Infinite?) ==>
      if dff.Infinite? && dff.neg != (dfl.neg != dfr.neg)
      then r == NaN(false, false, 0) && set_.status == old(set_.status) + {InvalidOperation}
      else r == Infinite(dfl.neg != dfr.neg) && set_.status == old(set_.status)
    ensures dff.Infinite? && dfl.Finite? && dfr.Finite? ==> r == Infinite(dff.neg) && set_.status == old(set_.status)
  {
    if !dfl.Finite? || !dfr.Finite? || !dff.Finite? {
      r := FmaSpecial(dfl, dfr, dff, set_);
    } else {
      hide Rounded, ExactSum, Overlaps, Replacement;
      r := FmaFinite(f, dfl, dfr, dff, set_);
    }
  }

  /** The guard and what it lets the code add, on the operands' digits: the addend's first digit lies more than pmax+2
      places below the product's, yet its last one above the product's end; its leading digit then takes its place, three
      digits below the last one kept. */
  lemma OverlapsMeans(f: Format, x: DecFloat, y: DecFloat, z: DecFloat)
    requires x.Finite? && y.Finite? && z.Finite?
    ensures var p, c := x.exp + y.exp, x.coef * y.coef;
      && (Overlaps(f, x, y, z) <==>
            && c > 0 && p > z.exp
            && NumDigits(c) + (p - z.exp) - NumDigits(z.coef) > f.pmax + 2 && p - z.exp < NumDigits(z.coef))
      && (Overlaps(f, x, y, z) ==>
            Replacement(f, Product(x, y), Addend(z)) ==
            Term(z.neg, z.coef / Pow10(NumDigits(z.coef) - 1), (if NumDigits(c) > f.pmax then p else p + NumDigits(c) - f.pmax) - 3))
  {
    hide NumDigits, Pow10;
  }

  /** What is rounded is the product of the values plus the third; an exact zero has the common sign of product and
      addend, or else is positive except when rounding toward minus infinity. */
  lemma FmaByValue(f: Format, m: Mode, x: DecFloat, y: DecFloat, z: DecFloat, r: DecFloat, s0: set<Flag>, s1: set<Flag>)
    requires f.Valid() && x.Finite? && y.Finite? && z.Finite? && z.Fits(f)
    requires Rounded(f, m, ExactSum(f, m, Product(x, y), Addend(z)), r, s0, s1)
    ensures var p := x.exp + y.exp;
      var e := if p <= z.exp then p else z.exp;
      var v := SignedUnits(x, x.exp) * SignedUnits(y, y.exp) * Pow10(p - e) + SignedUnits(z, e);
      && (v > 0 ==> Rounded(f, m, ExactOf(f, false, v, 1, e), r, s0, s1))
      && (v < 0 ==> Rounded(f, m, ExactOf(f, true, 0 - v, 1, e), r, s0, s1))
      && (v == 0 ==>
            && r == Finite(if (x.neg != y.neg) == z.neg then z.neg else m == Floor, 0, if e < f.Qtiny() then f.Qtiny() else e)
            && s1 == s0)
  {
    hide Rounded, ExactOf, Pow10;
    var e := Min(x.exp + y.exp, z.exp);
    ProductUnits(x, y, e);
    if SumOf(Product(x, y), Addend(z)) == 0 {
      ZeroRounds(f, m, SumNeg(m, Product(x, y), Addend(z)), e, r, s0, s1);
    }
  }

  lemma ProductUnits(x: DecFloat, y: DecFloat, e: int)
    requires x.Finite? && y.Finite? && e <= x.exp + y.exp
    ensures var p := Product(x, y);
      Signed(p.neg, At(p, e)) == SignedUnits(x, x.exp) * SignedUnits(y, y.exp) * Pow10(x.exp + y.exp - e)
  {
    TimesOne(x.coef);
    TimesOne(y.coef);
    hide Pow10;
    SignedTimes(x.neg, x.coef, y.neg, y.coef, Pow10(x.exp + y.exp - e));
  }

  lemma SignedTimes(a: bool, m: nat, b: bool, n: nat, p: nat)
    ensures Signed(a != b, m * n * p) == Signed(a, m) * Signed(b, n) * p
  {
    assert Signed(a, m) * Signed(b, n) == Signed(a != b, m * n);
  }

  /** A zero with an exponent below the least one gets that. */
  lemma ZeroRounds(f: Format, m: Mode, neg: bool, e: int, r: DecFloat, s0: set<Flag>, s1: set<Flag>)
    requires f.Valid() && e <= f.Qmax() && Rounded(f, m, ExactOf(f, neg, 0, 1, e), r, s0, s1)
    ensures r == Finite(neg, 0, if e < f.Qtiny() then f.Qtiny() else e) && s1 == s0
  {
    var x := ExactOf(f, neg, 0, 1, e);
    var i: nat := if e < f.Qtiny() then 0 else e - f.Qtiny();
    ZeroForm(f, neg, e, i);
    hide Rounded, ExactOf, Represents, Pow10;
    ExactPreferred(f, m, x, r, s0, s1, 0, i);
    NoUnits(f, r, x.den);
  }

  lemma ZeroForm(f: Format, neg: bool, e: int, i: nat)
    requires f.Valid() && e <= f.Qmax() && i == if e < f.Qtiny() then 0 else e - f.Qtiny()
    ensures var x := ExactOf(f, neg, 0, 1, e);
      x.neg == neg && x.num == 0 && x.ideal == e - f.Qtiny() && Represents(f, x, 0, i)
  {
  }

  lemma NoUnits(f: Format, r: DecFloat, d: nat)
    requires f.Valid() && r.Finite? && r.Fits(f) && d > 0 && Units(f, r) * d == 0
    ensures r.coef == 0
  {
    hide Pow10;
    if r.coef > 0 {
      MulLt(0, r.coef, Pow10(r.exp - f.Qtiny()));
      MulLt(0, Units(f, r), d);
    }
  }
}
