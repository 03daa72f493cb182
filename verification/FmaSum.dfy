/** The aligned addition inside decFloatFMA: two numbers of different lengths, summed into one buffer. */
module FmaSum {
  import opened Powers
  import opened Digits
  import opened Formats
  import opened Rounding
  import opened Finalize
  import opened DigitSums
  import opened Complement
  import opened Sums

  /** The signed sum of two aligned magnitudes, as sign and magnitude. */
  predicate Sum(m: Mode, hneg: bool, h: nat, lneg: bool, l: nat, neg: bool, c: nat) {
    var s := Signed(hneg, h) + Signed(lneg, l);
    c == Magnitude(s) && neg == if s != 0 then s < 0 else if hneg == lneg then hneg else m.Floor?
  }

  lemma SameSigns(m: Mode, neg: bool, h: nat, l: nat, c: nat)
    requires c == h + l && h > 0
    ensures Sum(m, neg, h, neg, l, neg, c)
  {
  }

  lemma HigherWins(m: Mode, hneg: bool, h: nat, l: nat, c: int)
    requires c == h - l > 0
    ensures Sum(m, hneg, h, !hneg, l, hneg, c)
  {
  }

  lemma LowerWins(m: Mode, hneg: bool, h: nat, l: nat, neg: bool, c: int)
    requires c == l - h >= 0 && neg == if c > 0 then !hneg else m.Floor?
    ensures Sum(m, hneg, h, !hneg, l, neg, c)
  {
  }

  lemma LeadingOne(s: seq<nat>, i: nat)
    requires i < |s| && s[i] == 1 && AllDigits(s[i + 1..|s|])
    ensures AllDigits(s[i..|s|]) && Dec(s[i..|s|]) == Dec(s[i + 1..|s|]) + Pow10(|s| - 1 - i)
  {
    hide Dec, Pow10;
    var t := s[i + 1..|s|];
    assert s[i..|s|] == [1] + t;
    DecCons(1, t);
  }

  /** Places a carry out of the top as a leading one. */
  method CarryOut(acc: array<nat>, ub: nat, carry: nat) returns (msd: nat)
    requires ub + 1 < acc.Length && AllDigits(acc[ub + 1..acc.Length]) && carry <= 1
    modifies acc
    ensures ub <= msd <= ub + 1 && AllDigits(acc[msd..acc.Length])
    ensures Dec(acc[msd..acc.Length]) == old(Dec(acc[ub + 1..acc.Length])) + CarryValue(carry, acc.Length - 1 - ub)
  {
    ghost var was := acc[..];
    msd := ub + 1;
    hide Dec, Pow10;
    if carry == 1 {
      acc[ub] := 1;
      msd := ub;
      SamePart(was, acc[..], ub + 1, acc.Length);
      LeadingOne(acc[..], ub);
    }
  }

  /** After the addition: carry or borrow, sign, and the exact-zero rule. */
  method FinishSum(set_: Context, acc: array<nat>, hneg: bool, lneg: bool, ub: nat, carry: nat, ghost h: nat, ghost l: nat)
    returns (msd: nat, neg: bool)
    requires ub + 1 < acc.Length && AllDigits(acc[ub + 1..acc.Length]) && carry <= 1 && 0 < h < Pow10(acc.Length - 1 - ub)
    requires var n := acc.Length - 1 - ub;
      Dec(acc[ub + 1..acc.Length]) + CarryValue(carry, n) == if hneg == lneg then h + l else Pow10(n) - h + l
    modifies acc
    ensures msd < acc.Length && AllDigits(acc[msd..acc.Length])
    ensures Sum(set_.round, hneg, h, lneg, l, neg, Dec(acc[msd..acc.Length]))
  {
    hide Dec, Pow10, Sum, AllDigits;
    DecBound(acc[ub + 1..acc.Length]);
    msd, neg := ub + 1, lneg;
    if hneg == lneg {
      msd := CarryOut(acc, ub, carry);
      SameSigns(set_.round, hneg, h, l, Dec(acc[msd..acc.Length]));
    } else if carry == 0 {
      neg := hneg;
      Negate(acc, msd, acc.Length - 1);
      HigherWins(set_.round, hneg, h, l, Dec(acc[msd..acc.Length]));
    } else {
      msd := SkipZeros(acc, msd, acc.Length - 1);
      ZeroByLead(acc[msd..acc.Length]);
      if acc[msd] == 0 {
        neg := set_.round.Floor?;
      }
      LowerWins(set_.round, hneg, h, l, neg, Dec(acc[msd..acc.Length]));
    }
  }

  /** A string without leading zeros is zero exactly when its first digit is. */
  lemma ZeroByLead(s: seq<nat>)
    requires s != [] && AllDigits(s) && (|s| == 1 || s[0] != 0)
    ensures Dec(s) == 0 <==> s[0] == 0
  {
    if s[0] == 0 {
      DecZeros(s);
    } else {
      DecZeroOnly(s, 0);
    }
  }

  /** The addition of an operand and the complement or plain value of the other. */
  lemma Totals(tail: seq<nat>, carry: nat, hs: seq<nat>, ls: seq<nat>, p: nat, n: nat)
    requires AllDigits(hs) && |hs| + p <= n && |ls| <= n && |tail| == n
    ensures Summed(tail, carry, HiString(hs, p, 0, n), LoString(ls, n), 0) ==>
      Dec(tail) + CarryValue(carry, n) == Dec(hs) * Pow10(p) + Dec(ls)
    ensures Summed(tail, carry, HiString(Nines(hs), p, 9, n), LoString(ls, n), Pow10(p)) ==>
      Dec(tail) + CarryValue(carry, n) == Pow10(n) - Dec(hs) * Pow10(p) + Dec(ls)
  {
    hide Dec, Pow10, HiString, LoString;
    HiValue(hs, p, n);
    HiComplement(hs, p, n);
    LoValue(ls, n);
    var a, b, c := HiString(hs, p, 0, n), HiString(Nines(hs), p, 9, n), LoString(ls, n);
    assert a[0..] == a && b[0..] == b && c[0..] == c;
  }

  /** The digit loops, once hi has been complemented if it must be. */
  method AddAligned(acc: array<nat>, hbuf: array<nat>, hmsd: nat, hlsd: nat, lbuf: array<nat>, lmsd: nat, llsd: nat,
                    padding: nat, carry0: nat, hipad: nat, ghost hs: seq<nat>, ghost ls: seq<nat>, ghost n: nat)
    returns (ub: int, carry: nat)
    requires hbuf != lbuf && hmsd <= hlsd < hbuf.Length && lmsd <= llsd < lbuf.Length && carry0 <= 1 && hipad <= 9
    requires hs == hbuf[hmsd..hlsd + 1] && ls == lbuf[lmsd..llsd + 1] && Extent(hs, ls, padding, n) && n < acc.Length
    requires (hbuf == acc ==> hlsd + padding < acc.Length) && (lbuf == acc ==> llsd + 4 < acc.Length)
    modifies acc
    ensures ub == acc.Length - 1 - n
    ensures Upto(acc, ub, carry, hs, ls, padding, hipad, n, CarryValue(carry0, padding))
  {
    assert Unread(lbuf, lmsd, llsd, ls) && Unread(hbuf, hmsd, hlsd, hs);
    assert padding + |hs| <= n && |hs| > 0 && |ls| > 0 && AllDigits(ls) && |ls| <= n;
    hide Dec, Pow10, HiString, LoString, Summed, CarryValue, AllDigits, Extent;
    var ul;
    ul, ub := SetLow(acc, lbuf, lmsd, llsd, padding, ls);
    LowSummed(acc[..], hs, ls, padding, hipad, n, carry0);
    assert acc[..][acc.Length - padding..] == acc[ub + 1..];
    assert Upto(acc, ub, carry0, hs, ls, padding, hipad, n, CarryValue(carry0, padding));
    hide Upto, Unread;
    ub, carry := AddDigits(acc, hbuf, hmsd, hlsd, lbuf, lmsd, ul, ub, carry0, hipad, hs, ls, padding, n, CarryValue(carry0, padding));
  }

  /** The sum of hi, complemented where the signs differ, and lo. */
  method SumDigits(acc: array<nat>, hbuf: array<nat>, hmsd: nat, hlsd: nat, lbuf: array<nat>, lmsd: nat, llsd: nat,
                   padding: nat, diffsign: bool, ghost hs: seq<nat>, ghost ls: seq<nat>, ghost n: nat)
    returns (ub: int, carry: nat)
    requires hbuf != lbuf && hmsd <= hlsd < hbuf.Length && lmsd <= llsd < lbuf.Length
    requires hs == hbuf[hmsd..hlsd + 1] && ls == lbuf[lmsd..llsd + 1] && Extent(hs, ls, padding, n) && n < acc.Length
    requires (hbuf == acc ==> hlsd + padding < acc.Length) && (lbuf == acc ==> llsd + 4 < acc.Length)
    modifies acc, hbuf
    ensures ub == acc.Length - 1 - n && AllDigits(acc[ub + 1..acc.Length]) && carry <= 1
    ensures Dec(acc[ub + 1..acc.Length]) + CarryValue(carry, n) ==
      if diffsign then Pow10(n) - Shifted(Dec(hs), padding) + Dec(ls) else Shifted(Dec(hs), padding) + Dec(ls)
  {
    hide Dec, Pow10, HiString, LoString, Summed;
    if diffsign {
      Invert(hbuf, hmsd, hlsd);
      ub, carry := AddAligned(acc, hbuf, hmsd, hlsd, lbuf, lmsd, llsd, padding, 1, 9, Nines(hs), ls, n);
      SummedDigits(acc[ub + 1..], carry, HiString(Nines(hs), padding, 9, n), LoString(ls, n), Pow10(padding));
    } else {
      ub, carry := AddAligned(acc, hbuf, hmsd, hlsd, lbuf, lmsd, llsd, padding, 0, 0, hs, ls, n);
      SummedDigits(acc[ub + 1..], carry, HiString(hs, padding, 0, n), LoString(ls, n), 0);
    }
    Totals(acc[ub + 1..], carry, hs, ls, padding, n);
    RightPart(acc[..], ub + 1);
  }

  /** The term a number stands for. */
  ghost function TermOf(num: BcdNum): Term
    requires num.Valid()
    reads num, num.buf
  {
    Term(num.neg, num.Coefficient(), num.exponent)
  }

  /** Makes num describe the right end of acc from msd on. */
  method PointAt(num: BcdNum, acc: array<nat>, msd: nat, neg: bool)
    requires msd < acc.Length && AllDigits(acc[msd..acc.Length]) && num.exponent < MIN_SPECIAL
    modifies num`buf, num`msd, num`lsd, num`neg
    ensures num.buf == acc && num.Valid() && num.neg == neg && num.Coefficient() == Dec(acc[msd..acc.Length])
  {
    num.buf, num.msd, num.lsd, num.neg := acc, msd, acc.Length - 1, neg;
  }

  /** Adds hi and lo, aligned, into the right end of acc; the sum replaces lo. */
  method AlignedSum(set_: Context, acc: array<nat>, hi: BcdNum, lo: BcdNum)
    requires hi != lo && hi.buf != lo.buf && (acc == hi.buf || acc == lo.buf)
    requires hi.Valid() && lo.Valid() && hi.Coefficient() > 0 && lo.exponent < MIN_SPECIAL
    requires var p, hl, ll := hi.exponent - lo.exponent, hi.lsd + 1 - hi.msd, lo.lsd + 1 - lo.msd;
      && 0 <= p && hl + p < acc.Length && ll < acc.Length
      && (hi.buf == acc ==> hi.lsd + p < acc.Length)
      && (lo.buf == acc ==> lo.lsd + 4 < acc.Length)
    modifies hi.buf, acc, lo
    ensures lo.buf == acc && lo.Valid() && lo.exponent == old(lo.exponent)
    ensures var a, b := old(TermOf(hi)), old(TermOf(lo));
      Sum(set_.round, a.neg, At(a, b.exp), b.neg, b.coef, lo.neg, lo.Coefficient())
  {
    hide *;
    var padding: nat := hi.exponent - lo.exponent;
    ghost var hs, ls, n, h := OperandFacts(hi, lo, padding);
    var ub, carry := SumDigits(acc, hi.buf, hi.msd, hi.lsd, lo.buf, lo.msd, lo.lsd, padding, hi.neg != lo.neg, hs, ls, n);
    var msd, neg := FinishSum(set_, acc, hi.neg, lo.neg, ub, carry, h, Dec(ls));
    PointAt(lo, acc, msd, neg);
  }

  /** The strings of both operands, the length of their sum, and what the higher one is worth there. */
  lemma OperandFacts(hi: BcdNum, lo: BcdNum, padding: nat) returns (hs: seq<nat>, ls: seq<nat>, n: nat, h: nat)
    requires hi.Valid() && lo.Valid() && hi.Coefficient() > 0 && hi.exponent == lo.exponent + padding
    ensures hi.msd <= hi.lsd < hi.buf.Length && lo.msd <= lo.lsd < lo.buf.Length
    ensures hs == hi.buf[hi.msd..hi.lsd + 1] && ls == lo.buf[lo.msd..lo.lsd + 1] && Extent(hs, ls, padding, n)
    ensures n == |hs| + padding || n == |ls|
    ensures h == Shifted(Dec(hs), padding) && 0 < h < Pow10(n)
    ensures TermOf(hi).exp == hi.exponent && TermOf(hi).neg == hi.neg && TermOf(lo) == Term(lo.neg, Dec(ls), lo.exponent)
    ensures At(TermOf(hi), lo.exponent) == h
  {
    hs, ls := hi.buf[hi.msd..hi.lsd + 1], lo.buf[lo.msd..lo.lsd + 1];
    n, h := Max(|hs| + padding, |ls|), Shifted(Dec(hs), padding);
    hide Dec, Pow10;
    HighBound(hs, padding, n);
  }

  lemma SummedDigits(tail: seq<nat>, carry: nat, hv: seq<nat>, lv: seq<nat>, c: nat)
    requires Summed(tail, carry, hv, lv, c)
    ensures AllDigits(tail) && carry <= 1
  {
  }

  lemma HighBound(hs: seq<nat>, p: nat, n: nat)
    requires AllDigits(hs) && Dec(hs) > 0 && |hs| + p <= n
    ensures 0 < Shifted(Dec(hs), p) < Pow10(n)
  {
    hide Dec, Pow10;
    DecBound(hs);
    Pow10Add(|hs|, p);
    MulLt(Dec(hs), Pow10(|hs|), Pow10(p));
    MulLt(0, Dec(hs), Pow10(p));
    Pow10Monotone(|hs| + p, n);
  }
}
