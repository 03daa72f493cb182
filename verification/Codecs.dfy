/** The two ways to a 64-bit encoding, decFinalize and decimal64FromNumber, run on one number. */
module Codecs {
  import opened Powers
  import opened Formats
  import opened Rounding
  import opened Finalize
  import opened DecNumbers
  import opened Interchange64
  import opened Decimal64
  import opened Bcd64

  /** The words decimal64FromNumber makes of a number the format holds and those stored for what decFinalize makes
      of it, in any mode, are the same. */
  lemma CodecsSameWords(m: Mode, neg: bool, d: seq<nat>, e: int, r: DecFloat, s0: set<Flag>, s1: set<Flag>,
                        lo: nat, hi: nat, lo': nat, hi': nat)
    requires Trimmed(d) && Holdable(|d|, e) && Rounded(DOUBLE, m, ExactOf(DOUBLE, neg, Value(d), 1, e), r, s0, s1)
    requires lo < 0x1_0000_0000 && hi < 0x1_0000_0000 && Canonical64(lo, hi)
    requires lo' < 0x1_0000_0000 && hi' < 0x1_0000_0000 && Canonical64(lo', hi')
    requires Denoted(lo, hi) == Folded(DOUBLE, neg, Value(d), e) && Denoted(lo', hi') == r
    ensures lo == lo' && hi == hi' && s1 == s0
  {
    hide *;
    ValidDouble();
    CodecsAgree(m, neg, d, e, r, s0, s1);
    WordsDetermined(lo, hi, lo', hi');
  }

  lemma ValidDouble()
    ensures DOUBLE.Valid()
  {
  }

  /** One number as each codec holds it. */
  ghost predicate SameNumber(dn: DecNumber, num: BcdNum)
    requires dn.Valid() && num.Valid()
    reads dn, dn.lsu, num, num.buf
  {
    && num.neg == dn.neg && num.Coefficient() == Value(dn.Digits())
    && match dn.kind
       case Ordinary => num.exponent == dn.exponent < MIN_SPECIAL
       case Infinity => num.exponent == INF_CODE && dn.digits < 16 && dn.exponent == 0
       case QuietNaN => num.exponent == QNAN_CODE && dn.digits < 16 && dn.exponent == 0
       case SignalingNaN => num.exponent == SNAN_CODE && dn.digits < 16 && dn.exponent == 0
  }

  /** Both codecs, run on the same number: any finite one, or a special value with a payload that fits. The words
      are equal, and the second codec raises no flag that the first has not raised. */
  method BothCodecs(dn: DecNumber, num: BcdNum, set_: Context, plus: DecNumber, raised: set<Flag>)
    returns (lo: nat, hi: nat, lo': nat, hi': nat)
    requires dn.Valid() && num.Valid() && SameNumber(dn, num) && dn.lsu != num.buf && plus != dn
    requires !Holdable(dn.digits, dn.exponent) ==> plus.Valid() && RoundedInto(dn, set_.round, plus, raised)
    modifies num`exponent, num.buf, plus`neg, set_`status
    ensures lo == lo' && hi == hi' && lo < 0x1_0000_0000 && hi < 0x1_0000_0000 && Canonical64(lo, hi)
    ensures dn.kind == Ordinary ==>
      Rounded(DOUBLE, set_.round, ExactOf(DOUBLE, dn.neg, old(Value(dn.Digits())), 1, dn.exponent), Denoted(lo, hi),
              old(set_.status), set_.status)
    ensures dn.kind != Ordinary ==> Denoted(lo, hi) == old(Encoded(dn)) && set_.status == old(set_.status)
  {
    hide *;
    BothKinds(dn, num);
    ValidDouble();
    Sizes();
    ghost var s0, m, finite := set_.status, set_.round, dn.kind == Ordinary;
    ghost var x := ExactOf(DOUBLE, num.neg, num.Coefficient(), 1, num.exponent);
    var clamped;
    lo, hi, clamped := FromNumber(dn, set_, plus, raised);
    ghost var s1 := set_.status;
    var r := DecFinalize(DOUBLE, num, set_);
    if finite {
      RoundedAgain(m, x, Denoted(lo, hi), r, s0, s1, set_.status);
    }
    DenotedFits(lo, hi);
    lo', hi' := EncodeDouble(r);
    WordsDetermined(lo, hi, lo', hi');
  }

  /** Rounding the same value once more gives the same datum and raises nothing new. */
  lemma RoundedAgain(m: Mode, x: Exact, r: DecFloat, r': DecFloat, s0: set<Flag>, s1: set<Flag>, s2: set<Flag>)
    requires x.den > 0 && Rounded(DOUBLE, m, x, r, s0, s1) && Rounded(DOUBLE, m, x, r', s1, s2)
    ensures r == r' && s1 == s2
  {
    hide Rounded;
    var first := RoundedFrom(DOUBLE, m, x, r, s0, s1);
    var second := RoundedFrom(DOUBLE, m, x, r', s1, s2);
    RoundedUnique(DOUBLE, m, x, r, r', {}, {} + first, {} + second);
  }

  lemma BothKinds(dn: DecNumber, num: BcdNum)
    requires dn.Valid() && num.Valid() && SameNumber(dn, num)
    ensures num.neg == dn.neg && num.Coefficient() == Value(dn.Digits())
    ensures if dn.kind == Ordinary then num.exponent == dn.exponent < MIN_SPECIAL
      else num.exponent >= MIN_SPECIAL && Holdable(dn.digits, dn.exponent)
    ensures dn.kind == Infinity ==> num.exponent == INF_CODE && Encoded(dn) == Infinite(num.neg)
    ensures dn.kind in {QuietNaN, SignalingNaN} ==>
      num.exponent in {SNAN_CODE, QNAN_CODE} &&
      Encoded(dn) == NaN(num.neg, num.exponent == SNAN_CODE, Value(dn.Digits()) % Pow10(DOUBLE.pmax - 1))
  {
    hide Value, Pow10, Folded;
    var d := dn.Digits();
    if dn.kind in {QuietNaN, SignalingNaN} {
      ValueBounds(d);
      Pow10Monotone(|d|, 15);
      Below(Value(d), Pow10(15));
    }
  }
}
