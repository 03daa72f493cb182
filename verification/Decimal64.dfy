/** decimal64FromNumber and decimal64ToNumber for numbers the format holds, and their agreement with decFinalize. */
module Decimal64 {
  import opened Powers
  import opened Digits
  import opened Formats
  import opened Rounding
  import opened Integers
  import opened DecNumbers
  import opened Dpd
  import opened DpdWords
  import opened DpdPack
  import opened DpdUnpack
  import opened Interchange64

  const WORD_SIZE: nat := 0x1_0000_0000
  const PMAX: nat := 16
  const EMAX: int := 384
  const EMIN: int := -383
  const EHIGH: int := 767

  lemma Sizes()
    ensures WORD_SIZE == 0x1_0000_0000 && PMAX == 16 && EHIGH == 767 && BIAS == 398
  {
  }

  /** The number needs no rounding: few enough digits, and an adjusted exponent within range. */
  predicate Holdable(digits: nat, e: int) {
    digits <= PMAX && EMIN <= e + digits - 1 <= EMAX
  }

  /** The number fits: its exponent is one of the format's, or above them with room to fold down. */
  predicate Storable(digits: nat, e: int) {
    digits <= PMAX && EMIN - 15 <= e && e + digits - 1 <= EMAX
  }

  /** c times 10^e with an exponent the format has: zeros are added to c if e is above the greatest. */
  function Folded(f: Format, neg: bool, c: nat, e: int): DecFloat {
    var pad: nat := Max(0, e - f.Qmax());
    Finite(neg, c * Pow10(pad), e - pad)
  }

  // ---- agreement ----

  /** Folding down, or clamping the exponent of a zero, is what correct rounding does, and loses nothing. */
  lemma FoldedRounds(f: Format, m: Mode, neg: bool, c: nat, e: int, len: nat, s: set<Flag>)
    requires f.Valid() && len >= 1 && c < Pow10(len) && (len == 1 || Pow10(len - 1) <= c)
    requires len <= f.pmax && f.Qtiny() <= e && len + e - 1 <= f.emax
    ensures Rounded(f, m, ExactOf(f, neg, c, 1, e), Folded(f, neg, c, e), s, s)
  {
    hide *;
    if e <= f.Qmax() {
      NotFolded(f, neg, c, e);
      Pow10Monotone(len, f.pmax);
      ExactRounds(f, m, neg, c, e, s);
    } else {
      FoldedDown(f, m, neg, c, e, len, s);
    }
  }

  lemma NotFolded(f: Format, neg: bool, c: nat, e: int)
    requires e <= f.Qmax()
    ensures Folded(f, neg, c, e) == Finite(neg, c, e)
  {
    assert Pow10(0) == 1;
  }

  lemma Whole(f: Format, m: Mode, neg: bool, c: nat, e: int, len: nat)
    requires f.Valid() && len <= f.pmax && f.Qtiny() <= e
    ensures Max(0, Drop(f, len, e)) == 0 && RoundInt(m, neg, c, Pow10(0)) == c && c % Pow10(0) == 0
    ensures e > f.Qmax() ==> e - f.Qtiny() > f.Top()
    ensures len + e - 1 <= f.emax ==> len + (e - f.Qtiny()) <= f.pmax + f.Top()
  {
    assert Pow10(0) == 1;
  }

  lemma FoldedDown(f: Format, m: Mode, neg: bool, c: nat, e: int, len: nat, s: set<Flag>)
    requires f.Valid() && len >= 1 && c < Pow10(len) && (len == 1 || Pow10(len - 1) <= c)
    requires len <= f.pmax && f.Qtiny() <= e && len + e - 1 <= f.emax && e > f.Qmax()
    ensures Rounded(f, m, ExactOf(f, neg, c, 1, e), Folded(f, neg, c, e), s, s)
  {
    var x, j: nat := ExactOf(f, neg, c, 1, e), e - f.Qtiny();
    hide Pow10, ExactOf, Quantum, Finish, RoundInt, Clamp, Folded, IntegralAt;
    Whole(f, m, neg, c, e, len);
    DropRounds(f, m, neg, c, e, len);
    assert RoundFlags(f, x, j) == {};
    Pow10Monotone(len, f.pmax);
    ClampFolds(f, m, neg, c, j, len, {});
    assert Finish(f, m, x, j) == Outcome(Folded(f, neg, c, e), {});
    assert s == s + Finish(f, m, x, j).flags;
  }

  lemma ClampFolds(f: Format, m: Mode, neg: bool, c: nat, j: nat, len: nat, flags: set<Flag>)
    requires f.Valid() && j > f.Top() && c < Pow10(len) && len + j <= f.pmax + f.Top()
    ensures Clamp(f, m, neg, c, j, flags) == Outcome(Folded(f, neg, c, f.Qtiny() + j), flags)
  {
    hide Pow10;
    Pow10Add(len, j);
    MulLt(c, Pow10(len), Pow10(j));
    Pow10Monotone(len + j, f.pmax + f.Top());
    assert c == 0 ==> c * Pow10(j - f.Top()) == 0;
  }

  /** Both codecs make the same datum of a number the format holds: what the one stores is what the other's
      correct rounding determines, in every mode and without a flag. */
  lemma CodecsAgree(m: Mode, neg: bool, d: seq<nat>, e: int, r: DecFloat, s0: set<Flag>, s1: set<Flag>)
    requires Trimmed(d) && Holdable(|d|, e)
    ensures Rounded(DOUBLE, m, ExactOf(DOUBLE, neg, Value(d), 1, e), r, s0, s1) <==>
      r == Folded(DOUBLE, neg, Value(d), e) && s1 == s0
  {
    hide Rounded, ExactOf, Pow10, Value, Folded;
    var x := ExactOf(DOUBLE, neg, Value(d), 1, e);
    assert DOUBLE.Valid() && DOUBLE.pmax == PMAX && DOUBLE.emax == EMAX && DOUBLE.Qtiny() == EMIN - 15;
    ValueBounds(d);
    FoldedRounds(DOUBLE, m, neg, Value(d), e, |d|, s0);
    if Rounded(DOUBLE, m, x, r, s0, s1) {
      RoundedUnique(DOUBLE, m, x, r, Folded(DOUBLE, neg, Value(d), e), s0, s1, s0);
    }
  }

  // ---- from a number ----

  /** The sixteenth digit is the top of what the declets make. */
  lemma {:induction false} TopDeclet(r: seq<nat>, n: nat) returns (low: nat)
    requires AllDigits(r) && |r| <= 3 * n + 1
    ensures low < Shifts(n) && DigitAt(r, 3 * n) <= 9 && Declets(r) == low + AsBits(DigitAt(r, 3 * n), n)
    decreases n
  {
    hide *;
    if n == 0 {
      low := 0;
      AtBottom(DigitAt(r, 0));
      OneDigit(r);
    } else {
      BeyondDigits(r);
      var high := TopDeclet(Beyond(r), n - 1);
      DecletsParts(r);
      BeyondAt(r, 3 * n);
      OneDecletUp(DigitAt(r, 3 * n), n);
      low := Declets(r) % 1024 + 1024 * high;
    }
  }

  lemma BeyondAt(r: seq<nat>, i: nat)
    requires i >= 3
    ensures DigitAt(r, i) == DigitAt(Beyond(r), i - 3)
  {
  }

  lemma OneDigit(r: seq<nat>)
    requires AllDigits(r) && |r| <= 1
    ensures Declets(r) == DigitAt(r, 0) && DigitAt(r, 0) <= 9
  {
    SmallCodes(DigitAt(r, 0));
    assert Bin(r) == DigitAt(r, 0) && Declets([]) == 0;
    hide Encode;
  }

  /** The words of packed digits, split into continuation and top digit, give their value. */
  lemma PackedValue(r: seq<nat>, lo: nat, hi: nat)
    requires AllDigits(r) && |r| <= PMAX && lo < WORD_SIZE && Words([lo, hi]) == Declets(r)
    ensures hi / 0x4_0000 <= 9
    ensures Sixteen(hi / 0x4_0000, Number(Words([lo, hi % 0x4_0000]), 5)) == Value(r)
    ensures CanonicalDeclets(Words([lo, hi % 0x4_0000]), 5)
  {
    hide *;
    Sizes();
    var low := TopDeclet(r, 5);
    var msd := DigitAt(r, 15);
    TopShift(msd);
    SplitTop(lo, hi, low, msd);
    SixteenIs(msd, Number(Words([lo, hi % 0x4_0000]), 5));
    NumberHigher(low, 5, 6, msd);
    DigitsBack(r, 6);
    ValueDecoded(Declets(r), 6);
    DecletsCanonical(r, 5);
    CanonicalLow(low, 5, msd);
  }

  lemma DigitsBack(r: seq<nat>, n: nat)
    requires AllDigits(r) && |r| <= 3 * n
    ensures Value(Decoded(Declets(r), n)) == Value(r)
  {
    hide *;
    var e := Decoded(Declets(r), n);
    DecodedDeclets(r, n);
    assert e == e[..|r|] + e[|r|..];
    ValuePadded(r, e[|r|..]);
  }

  lemma RaisedDigits(d: seq<nat>, n: nat)
    requires AllDigits(d)
    ensures AllDigits(Raised(d, n))
  {
  }

  lemma NotSpecial(exp: nat, msd: nat, hi: nat)
    requires exp <= 767 && msd <= 9 && CombField(hi) == Comb(exp, msd)
    ensures !IsSpecial(hi)
  {
    CombFields(exp, msd);
    hide Comb, CombField;
  }

  /** The fields put together denote what went into them. */
  lemma Assembled(neg: bool, exp: nat, msd: nat, lo: nat, hi: nat)
    requires exp <= 767 && msd <= 9 && !IsSpecial(hi)
    requires SignBit(hi) == (if neg then 1 else 0) && CombField(hi) == Comb(exp, msd) && ExpField(hi) == exp % 256
    ensures Denoted(lo, hi) == Finite(neg, Sixteen(msd, Number(Words([lo, ContField(hi)]), 5)), exp - 398)
    ensures Canonical64(lo, hi) <==> CanonicalDeclets(Words([lo, ContField(hi)]), 5)
  {
    CombFields(exp, msd);
    hide Pow10, Number, Words, Comb, CombField, ExpField, ContField, SignBit, CombMsd, CanonicalDeclets;
  }

  /** The coefficient with zeros added, cut into low word, continuation and top digit. */
  method PackCoefficient(dn: DecNumber, pad: nat) returns (lo: nat, cont: nat, msd: nat)
    requires dn.Valid() && dn.digits + pad <= PMAX
    ensures lo < WORD_SIZE && cont < 0x4_0000 && msd <= 9
    ensures Sixteen(msd, Number(Words([lo, cont]), 5)) == Value(dn.Digits()) * Pow10(pad)
    ensures CanonicalDeclets(Words([lo, cont]), 5)
  {
    ghost var d := dn.Digits();
    var targ := new nat[2](_ => 0);
    assert WordsFor(dn.digits + pad, 2) && AllDigits(d);
    hide *;
    DigitsToDPD(dn, targ, pad);
    assert targ[..] == [targ[0], targ[1]];
    RaisedDigits(d, pad);
    ValueRaised(d, pad);
    PackedValue(Raised(d, pad), targ[0], targ[1]);
    lo, msd, cont := targ[0], targ[1] / 0x4_0000, targ[1] % 0x4_0000;
  }

  /** An ordinary number that needs no rounding. */
  method FiniteWords(dn: DecNumber) returns (lo: nat, hi: nat, clamped: bool)
    requires dn.Valid() && dn.kind == Ordinary && Storable(dn.digits, dn.exponent)
    ensures lo < WORD_SIZE && hi < WORD_SIZE && !IsSpecial(hi) && Canonical64(lo, hi)
    ensures Denoted(lo, hi) == Folded(DOUBLE, dn.neg, Value(dn.Digits()), dn.exponent)
    ensures clamped <==> dn.exponent > DOUBLE.Qmax()
  {
    hide *;
    Sizes();
    Folding(dn);
    var exp: nat := dn.exponent + BIAS;
    var msd, cont := 0, 0;
    clamped := exp > EHIGH;
    if dn.lsu[0] == 0 && dn.digits == 1 {
      if clamped {
        exp := EHIGH;
      }
      lo := 0;
      NothingEncoded();
      TimesPower(Pow10(Max(0, dn.exponent - 369)));
    } else {
      var pad := 0;
      if clamped {
        pad := exp - EHIGH;
        exp := EHIGH;
      }
      lo, cont, msd := PackCoefficient(dn, pad);
    }
    CombFields(exp, msd);
    HighFields(if dn.neg then 1 else 0, Comb(exp, msd), exp % 256, cont);
    hi := HighWord(if dn.neg then 1 else 0, Comb(exp, msd), exp % 256, cont);
    NotSpecial(exp, msd, hi);
    Assembled(dn.neg, exp, msd, lo, hi);
  }

  /** What the words for a number denote: a finite one with its exponent in range; of a NaN's payload, what fits. */
  ghost function Encoded(dn: DecNumber): DecFloat
    requires dn.Valid()
    reads dn, dn.lsu
  {
    EncodedAs(dn.neg, dn.kind, dn.Digits(), dn.exponent)
  }

  function EncodedAs(neg: bool, kind: Kind, d: seq<nat>, e: int): DecFloat {
    match kind
    case Ordinary => Folded(DOUBLE, neg, Value(d), e)
    case Infinity => Infinite(neg)
    case _ => NaN(neg, kind == SignalingNaN, if |d| < PMAX then Value(d) else 0)
  }

  /** The same outright: an exponent above 369 is brought down with zeros, and a payload of sixteen digits is left out. */
  lemma EncodedIs(dn: DecNumber)
    requires dn.Valid()
    ensures dn.kind == Ordinary && dn.exponent <= 369 ==> Encoded(dn) == Finite(dn.neg, Value(dn.Digits()), dn.exponent)
    ensures dn.kind == Ordinary && dn.exponent > 369 ==>
      Encoded(dn) == Finite(dn.neg, Value(dn.Digits()) * Pow10(dn.exponent - 369), 369)
    ensures dn.kind == Infinity ==> Encoded(dn) == Infinite(dn.neg)
    ensures dn.kind == QuietNaN || dn.kind == SignalingNaN ==>
      Encoded(dn) == NaN(dn.neg, dn.kind == SignalingNaN, if dn.digits <= 15 then Value(dn.Digits()) else 0)
  {
    hide Value, Pow10;
    TimesOne(Value(dn.Digits()));
  }

  /** The payload of a NaN; one too long for the format is left out. */
  method PackPayload(dn: DecNumber) returns (lo: nat, cont: nat)
    requires dn.Valid() && dn.kind != Ordinary && dn.digits <= PMAX
    ensures lo < WORD_SIZE && cont < 0x4_0000 && CanonicalDeclets(Words([lo, cont]), 5)
    ensures Number(Words([lo, cont]), 5) == if dn.digits < PMAX then Value(dn.Digits()) else 0
  {
    hide *;
    SpecialCases(dn);
    Sizes();
    NothingEncoded();
    lo, cont := 0, 0;
    if (dn.lsu[0] != 0 || dn.digits > 1) && dn.digits < PMAX {
      var msd;
      lo, cont, msd := PackCoefficient(dn, 0);
      PayloadFits(dn, msd, Number(Words([lo, cont]), 5));
    }
  }

  /** An infinity or a NaN. */
  method SpecialWords(dn: DecNumber) returns (lo: nat, hi: nat)
    requires dn.Valid() && dn.kind != Ordinary && dn.digits <= PMAX
    ensures lo < WORD_SIZE && hi < WORD_SIZE && Canonical64(lo, hi) && Denoted(lo, hi) == Encoded(dn)
  {
    hide *;
    SpecialCases(dn);
    Sizes();
    var sign := if dn.neg then 1 else 0;
    if dn.kind == Infinity {
      NothingEncoded();
      lo, hi := 0, HighWord(sign, 30, 0, 0);
      HighFields(sign, 30, 0, 0);
      AssembledSpecial(dn.neg, 0, lo, hi);
    } else {
      var cont;
      lo, cont := PackPayload(dn);
      var low := if dn.kind == SignalingNaN then 128 else 0;
      hi := HighWord(sign, 31, low, cont);
      HighFields(sign, 31, low, cont);
      AssembledSpecial(dn.neg, low, lo, hi);
    }
  }

  lemma SpecialCases(dn: DecNumber)
    requires dn.Valid() && dn.kind != Ordinary
    ensures dn.lsu.Length > 0 && dn.digits >= 1 && (dn.lsu[0] == 0 && dn.digits == 1 ==> Value(dn.Digits()) == 0)
    ensures Encoded(dn) == if dn.kind == Infinity then Infinite(dn.neg)
      else NaN(dn.neg, dn.kind == SignalingNaN, if dn.digits < 16 then Value(dn.Digits()) else 0)
  {
    ValueOfZero();
    if dn.lsu[0] == 0 && dn.digits == 1 {
      assert dn.Digits() == [0];
    }
    hide Value;
  }

  /** Fifteen digits leave the digit of the combination field zero. */
  lemma PayloadFits(dn: DecNumber, msd: nat, n: nat)
    requires dn.Valid() && dn.digits < 16 && Sixteen(msd, n) == Value(dn.Digits()) * Pow10(0)
    ensures msd == 0 && n == Value(dn.Digits())
  {
    var d := dn.Digits();
    ValueBounds(d);
    Pow10Monotone(|d|, 15);
    Fifteen();
    assert Pow10(0) == 1;
    hide Value, Pow10;
    TimesPower(1);
    assert Value(d) * 1 == Value(d);
  }

  /** The words for a number that fits, or for a special value. */
  method StoreNumber(dn: DecNumber) returns (lo: nat, hi: nat, clamped: bool)
    requires dn.Valid() && dn.digits <= PMAX && (dn.kind == Ordinary ==> Storable(dn.digits, dn.exponent))
    ensures lo < WORD_SIZE && hi < WORD_SIZE && Canonical64(lo, hi) && Denoted(lo, hi) == Encoded(dn)
    ensures clamped <==> dn.kind == Ordinary && dn.exponent > DOUBLE.Qmax()
  {
    hide Canonical64, Denoted, Folded, Value, IsSpecial;
    if dn.kind == Ordinary {
      lo, hi, clamped := FiniteWords(dn);
    } else {
      lo, hi := SpecialWords(dn);
      clamped := false;
    }
  }

  /** The datum a number stands for. */
  ghost function DatumOf(dn: DecNumber): DecFloat
    requires dn.Valid()
    reads dn, dn.lsu
  {
    DatumAs(dn.neg, dn.kind, dn.Digits(), dn.exponent)
  }

  function DatumAs(neg: bool, kind: Kind, d: seq<nat>, e: int): DecFloat {
    match kind
    case Ordinary => Finite(neg, Value(d), e)
    case Infinity => Infinite(neg)
    case _ => NaN(neg, kind == SignalingNaN, Value(d))
  }

  /** What decNumberPlus promises of the number it leaves in the work area: an ordinary number rounded once to the
      format, but for the sign of a zero; a NaN made quiet, with the low digits of its payload. */
  ghost predicate RoundedInto(dn: DecNumber, m: Mode, plus: DecNumber, raised: set<Flag>)
    requires dn.Valid() && plus.Valid()
    reads dn, dn.lsu, plus, plus.lsu
  {
    && (plus.neg ==> dn.neg) && plus.digits <= PMAX
    && match dn.kind
       case Ordinary =>
         && plus.kind in {Ordinary, Infinity}
         && (plus.kind == Ordinary ==> Storable(plus.digits, plus.exponent) && plus.exponent <= DOUBLE.Qmax())
         && Rounded(DOUBLE, m, ExactOf(DOUBLE, dn.neg, Value(dn.Digits()), 1, dn.exponent),
                    DatumAs(dn.neg, plus.kind, plus.Digits(), plus.exponent), {}, raised)
       case Infinity => plus.kind == Infinity && raised == {}
       case _ =>
         && plus.kind == QuietNaN && plus.digits < PMAX && Value(plus.Digits()) == Value(dn.Digits()) % Pow10(PMAX - 1)
         && raised == if dn.kind == SignalingNaN then {InvalidOperation} else {}
  }

  /** What the words denote once the sign is put back. */
  lemma PlusEncoded(dn: DecNumber, m: Mode, plus: DecNumber, raised: set<Flag>, s: set<Flag>)
    requires dn.Valid() && plus.Valid() && RoundedInto(dn, m, plus, raised)
    ensures (plus.neg ==> dn.neg) && plus.digits <= PMAX && (plus.kind == Ordinary ==> Storable(plus.digits, plus.exponent) && plus.exponent <= 369)
    ensures var x := EncodedAs(dn.neg, plus.kind, plus.Digits(), plus.exponent);
      && (dn.kind == Ordinary ==>
            Rounded(DOUBLE, m, ExactOf(DOUBLE, dn.neg, Value(dn.Digits()), 1, dn.exponent), x, s, s + raised))
      && (dn.kind == Infinity ==> x == Infinite(dn.neg) && raised == {})
      && (dn.kind in {QuietNaN, SignalingNaN} ==>
            x == NaN(dn.neg, false, Value(dn.Digits()) % Pow10(15)) && raised == if dn.kind == SignalingNaN then {InvalidOperation} else {})
  {
    hide Rounded, ExactOf, Folded, Value, Pow10;
    if dn.kind == Ordinary {
      if plus.kind == Ordinary {
        NotFolded(DOUBLE, dn.neg, Value(plus.Digits()), plus.exponent);
      }
      var flags := RoundedFrom(DOUBLE, m, ExactOf(DOUBLE, dn.neg, Value(dn.Digits()), 1, dn.exponent),
                               DatumAs(dn.neg, plus.kind, plus.Digits(), plus.exponent), {}, raised);
      assert flags == raised;
    }
  }

  /** A number that needs no rounding fits, and keeps its value. */
  lemma HoldableFits(dn: DecNumber, m: Mode, s: set<Flag>)
    requires dn.Valid() && Holdable(dn.digits, dn.exponent)
    ensures dn.digits <= PMAX && Storable(dn.digits, dn.exponent) && DOUBLE.Qmax() == 369
    ensures dn.kind == Ordinary ==>
      Rounded(DOUBLE, m, ExactOf(DOUBLE, dn.neg, Value(dn.Digits()), 1, dn.exponent), Encoded(dn), s, s)
  {
    hide Rounded, ExactOf, Folded, Value;
    if dn.kind == Ordinary {
      CodecsAgree(m, dn.neg, dn.Digits(), dn.exponent, Encoded(dn), s, s);
    }
  }

  /** Keeps the sign of a number that was rounded to zero. */
  method RestoreSign(plus: DecNumber, neg: bool)
    requires plus.Valid() && (plus.neg ==> neg)
    modifies plus`neg
    ensures plus.Valid() && plus.Digits() == old(plus.Digits())
    ensures Encoded(plus) == EncodedAs(neg, plus.kind, old(plus.Digits()), plus.exponent)
  {
    hide EncodedAs, DigitsOf, Trimmed;
    if neg {
      plus.neg := true;
    }
  }

  /** decimal64FromNumber. When the number is too long or too large or small, decNumberPlus rounds it into plus and
      raises flags first. */
  method FromNumber(dn: DecNumber, set_: Context, plus: DecNumber, raised: set<Flag>) returns (lo: nat, hi: nat, clamped: bool)
    requires dn.Valid() && plus != dn
    requires !Holdable(dn.digits, dn.exponent) ==> plus.Valid() && RoundedInto(dn, set_.round, plus, raised)
    modifies plus`neg, set_`status
    ensures lo < WORD_SIZE && hi < WORD_SIZE && Canonical64(lo, hi)
    ensures dn.kind == Ordinary ==>
      Rounded(DOUBLE, set_.round, ExactOf(DOUBLE, dn.neg, old(Value(dn.Digits())), 1, dn.exponent), Denoted(lo, hi),
              old(set_.status), set_.status)
    ensures if Holdable(dn.digits, dn.exponent)
      then Denoted(lo, hi) == old(Encoded(dn)) && set_.status == old(set_.status)
           && (clamped <==> dn.kind == Ordinary && dn.exponent > DOUBLE.Qmax())
      else
        && (dn.kind == Infinity ==> Denoted(lo, hi) == Infinite(dn.neg) && set_.status == old(set_.status))
        && (dn.kind in {QuietNaN, SignalingNaN} ==>
              && Denoted(lo, hi) == NaN(dn.neg, false, old(Value(dn.Digits())) % Pow10(15))
              && set_.status == old(set_.status) + if dn.kind == SignalingNaN then {InvalidOperation} else {})
  {
    hide *;
    ghost var s := set_.status;
    if Holdable(dn.digits, dn.exponent) {
      HoldableFits(dn, set_.round, s);
      lo, hi, clamped := StoreNumber(dn);
    } else {
      PlusEncoded(dn, set_.round, plus, raised, s);
      RestoreSign(plus, dn.neg);
      lo, hi, clamped := StoreNumber(plus);
      set_.status := set_.status + raised;
    }
  }

  lemma Folding(dn: DecNumber)
    requires dn.Valid() && Storable(dn.digits, dn.exponent)
    ensures dn.lsu.Length > 0 && (dn.lsu[0] == 0 && dn.digits == 1 ==> dn.Digits() == [0]) && dn.exponent + 398 >= 0
    ensures DOUBLE.Qmax() == 369 && (dn.exponent > 369 ==> dn.digits + (dn.exponent - 369) <= 16)
    ensures var pad: nat := Max(0, dn.exponent - 369);
      Folded(DOUBLE, dn.neg, Value(dn.Digits()), dn.exponent) == Finite(dn.neg, Value(dn.Digits()) * Pow10(pad), dn.exponent - pad)
    ensures dn.digits <= 16 && Max(0, dn.exponent - 369) == if dn.exponent > 369 then dn.exponent - 369 else 0
  {
    hide Pow10, Value;
  }

  lemma TimesPower(p: nat)
    ensures 0 * p == 0 && 1 * p == p
  {
  }

  // ---- to a number ----

  lemma OneDeclet(top: nat)
    requires top <= 9
    ensures Decoded(top, 1) == [top, 0, 0]
  {
    hide *;
    SmallCodes(top);
    DecodedStep(top, 1);
    ThreeOfDigit(top);
    assert Decoded(top, 1) == Decoded(top, 1)[..3];
  }

  lemma ThreeOfDigit(top: nat)
    requires top <= 9
    ensures Three(top) == [top, 0, 0] && top % 1024 == top
  {
    hide *;
    ThreeParts(top);
    assert top % 10 == top && top / 10 == 0 && 0 % 10 == 0 && top / 100 == 0;
  }

  lemma Behind(d: seq<nat>, k: nat)
    requires 3 <= k < |d|
    ensures d[k] == d[3..][k - 3]
  {
  }

  /** A top digit takes one digit of its declet. */
  lemma {:induction false} DecodedTop(v: nat, n: nat, top: nat)
    requires v < Shifts(n) && top <= 9
    ensures var d := Decoded(v + AsBits(top, n), n + 1);
      d[3 * n + 1] == 0 && d[3 * n + 2] == 0
  {
    hide *;
    var w := v + AsBits(top, n);
    var d := Decoded(w, n + 1);
    if n == 0 {
      AtBottom(top);
      OneDeclet(top);
    } else {
      OneDecletUp(top, n);
      PartsOf(v, AsBits(top, n - 1));
      assert w / 1024 == v / 1024 + AsBits(top, n - 1);
      DecodedTop(v / 1024, n - 1, top);
      DecodedStep(w, n + 1);
      Behind(d, 3 * n + 1);
      Behind(d, 3 * n + 2);
    }
  }

  lemma WordsUnpackable(lo: nat, hi: nat, need: nat)
    requires lo < WORD_SIZE && hi < WORD_SIZE && 0 < need <= 6
    requires need == 6 ==> Decoded(Words([lo, hi]), 6)[16] == 0 && Decoded(Words([lo, hi]), 6)[17] == 0
    ensures Unpackable([lo, hi], need, 8)
  {
    hide Words, Decoded;
  }

  /** The declets chosen to be processed hold the whole coefficient, and their digits fit eight units. */
  lemma EnoughDeclets(lo: nat, cont: nat, msd: nat, need: nat)
    requires lo < WORD_SIZE && cont < 0x4_0000 && msd <= 9 && 0 < need <= 6
    requires need < 6 ==> msd == 0 && Words([lo, cont]) < Shifts(need)
    ensures var hi := cont + 0x4_0000 * msd;
      Number(Words([lo, hi]), need) == Sixteen(msd, Number(Words([lo, cont]), 5)) && Unpackable([lo, hi], need, 8)
  {
    hide *;
    Sizes();
    var w, hi := Words([lo, cont]), cont + 0x4_0000 * msd;
    TopShift(msd);
    WithTop(lo, cont, msd);
    SixteenIs(msd, Number(w, 5));
    if need == 6 {
      NumberHigher(w, 5, 6, msd);
      DecodedTop(w, 5, msd);
    } else {
      NoTop(need);
      assert hi == cont;
      if need < 5 {
        NumberHigher(w, need, 5, 0);
      }
    }
    WordsUnpackable(lo, hi, need);
  }

  lemma NoTop(n: nat)
    ensures AsBits(0, n) == 0 && AsDigits(0, n) == 0
  {
  }

  /** How many declets the words need (decimal64ToNumber). */
  method DecletsNeeded(lo: nat, cont: nat, msd: nat) returns (need: nat)
    requires lo < WORD_SIZE && cont < 0x4_0000 && msd <= 9
    ensures need <= 6 && (need < 6 ==> msd == 0) && (need == 0 <==> msd == 0 && cont == 0 && lo == 0)
    ensures 0 < need < 6 ==> Words([lo, cont]) < Shifts(need)
  {
    WordsOfTwo(lo, cont);
    ShiftsUpTo5();
    if msd != 0 {
      return 6;
    }
    if cont == 0 {
      if lo == 0 {
        return 0;
      }
      return if lo / 0x4000_0000 != 0 then 4 else 3;
    }
    need := if cont / 0x100 != 0 then 5 else 4;
  }

  /** The coefficient of the declets needed, into a number that is zero so far. */
  method UnpackCoefficient(dn: DecNumber, lo: nat, cont: nat, msd: nat)
    requires dn.Valid() && dn.Digits() == [0] && dn.lsu.Length >= 8
    requires lo < WORD_SIZE && cont < 0x4_0000 && msd <= 9
    modifies dn`digits, dn.lsu
    ensures dn.Valid() && Value(dn.Digits()) == Sixteen(msd, Number(Words([lo, cont]), 5))
  {
    hide *;
    var need := DecletsNeeded(lo, cont, msd);
    if need == 0 {
      NothingEncoded();
      return;
    }
    EnoughDeclets(lo, cont, msd, need);
    var sour := [lo, cont + 0x4_0000 * msd];
    MoreUnits(sour, need, dn.lsu.Length);
    DigitsFromDPD(dn, sour, need);
    ghost var d := Decoded(Words(sour), need);
    ValueDecoded(Words(sour), need);
    assert |d| == 3 * need;
    ValueTrimmed(d);
  }

  /** A zero with the given sign, kind and exponent. */
  method Prepare(dn: DecNumber, neg: bool, kind: Kind, exponent: int)
    requires dn.lsu.Length > 0
    modifies dn`digits, dn`exponent, dn`neg, dn`kind, dn.lsu
    ensures dn.Valid() && dn.Digits() == [0] && dn.neg == neg && dn.kind == kind && dn.exponent == exponent
  {
    dn.Zero();
    dn.neg, dn.kind, dn.exponent := neg, kind, exponent;
  }

  /** decimal64ToNumber. */
  method ToNumber(lo: nat, hi: nat, dn: DecNumber)
    requires lo < WORD_SIZE && hi < WORD_SIZE && dn.lsu.Length >= 8
    modifies dn`digits, dn`exponent, dn`neg, dn`kind, dn.lsu
    ensures dn.Valid() && DatumOf(dn) == Denoted(lo, hi)
    ensures IsSpecial(hi) ==> dn.exponent == 0
    ensures dn.kind == Infinity ==> dn.Digits() == [0]
  {
    hide *;
    Sizes();
    Fields(lo, hi);
    var sign, comb, low, cont := TakeHigh(hi);
    var msd, exp := CombMsd(comb), CombExp(comb);
    if exp == 3 {
      if msd == 0 {
        Prepare(dn, sign == 1, Infinity, 0);
        DatumIs(dn);
        return;
      }
      Prepare(dn, sign == 1, if low >= 128 then SignalingNaN else QuietNaN, 0);
      msd := 0;
    } else {
      Prepare(dn, sign == 1, Ordinary, exp * 256 + low - BIAS);
    }
    UnpackCoefficient(dn, lo, cont, msd);
    DatumIs(dn);
  }

  lemma DatumIs(dn: DecNumber)
    requires dn.Valid()
    ensures DatumOf(dn) == match dn.kind
      case Ordinary => Finite(dn.neg, Value(dn.Digits()), dn.exponent)
      case Infinity => Infinite(dn.neg)
      case _ => NaN(dn.neg, dn.kind == SignalingNaN, Value(dn.Digits()))
  {
  }

  lemma Fields(lo: nat, hi: nat)
    requires hi < WORD_SIZE
    ensures var n, msd, exp := Number(Words([lo, ContField(hi)]), 5), CombMsd(CombField(hi)), CombExp(CombField(hi));
      && Sixteen(0, n) == n && msd <= 9 && (IsSpecial(hi) <==> exp == 3)
      && (exp != 3 ==> Denoted(lo, hi) == Finite(SignBit(hi) == 1, Sixteen(msd, n), exp * 256 + ExpField(hi) - BIAS))
      && (exp == 3 && msd == 0 ==> Denoted(lo, hi) == Infinite(SignBit(hi) == 1))
      && (exp == 3 && msd != 0 ==> Denoted(lo, hi) == NaN(SignBit(hi) == 1, ExpField(hi) >= 128, n))
  {
    hide Words, Number, Pow10, SignBit, CombField, ExpField, ContField;
  }

  lemma MoreUnits(sour: seq<nat>, declets: nat, units: nat)
    requires Unpackable(sour, declets, 8) && units >= 8
    ensures Unpackable(sour, declets, units)
  {
    hide Decoded, Words;
  }

  lemma ValueOfZero()
    ensures Value([0]) == 0
  {
    assert [0][1..] == [];
  }

  lemma ShiftsUpTo5()
    ensures Shifts(3) == 0x4000_0000 && Shifts(4) == 0x100_0000_0000 && Shifts(5) == TOP
  {
    TopShift(0);
    assert Shifts(2) == 0x10_0000;
  }

  lemma NothingEncoded()
    ensures CanonicalDeclets(Words([0, 0]), 5)
    ensures Number(Words([0, 0]), 5) == 0 && Sixteen(0, Number(Words([0, 0]), 5)) == 0 && Value([0]) == 0
  {
    hide Words, Number, Pow10, CanonicalDeclets;
    ValueOfZero();
    WordsOfTwo(0, 0);
    NumberZero(5);
    ZeroWords();
  }

  // ---- there and back ----

  /** A number encoded and decoded is rounded once to the format; one that needs no rounding is kept as it is
      encoded, with its sign and value, or its special value and the payload that fits. */
  method ThereAndBack(a: DecNumber, b: DecNumber, set_: Context, plus: DecNumber, raised: set<Flag>)
    requires a.Valid() && b.lsu.Length >= 8 && a != b && a.lsu != b.lsu && plus != a && plus != b
    requires !Holdable(a.digits, a.exponent) ==> plus.Valid() && RoundedInto(a, set_.round, plus, raised)
    modifies b`digits, b`exponent, b`neg, b`kind, b.lsu, plus`neg, set_`status
    ensures b.Valid()
    ensures a.kind == Ordinary ==>
      Rounded(DOUBLE, set_.round, ExactOf(DOUBLE, a.neg, old(Value(a.Digits())), 1, a.exponent), DatumOf(b),
              old(set_.status), set_.status)
    ensures Holdable(a.digits, a.exponent) ==> DatumOf(b) == old(Encoded(a)) && set_.status == old(set_.status)
  {
    hide *;
    var lo, hi, clamped := FromNumber(a, set_, plus, raised);
    ToNumber(lo, hi, b);
  }
}
