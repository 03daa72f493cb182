/** The 64-bit interchange format (IEEE 754, section 3.5.2): sign, combination field, exponent continuation
    and five declets, in two 32-bit words. */
module Interchange64 {
  import opened Powers
  import opened Digits
  import opened Formats
  import opened DecNumbers
  import opened Dpd
  import opened DpdWords
  import opened DpdPack
  import opened DpdUnpack

  // ---- decimal digits, least significant first ----

  lemma {:induction false} ValueRaised(d: seq<nat>, n: nat)
    ensures Value(Raised(d, n)) == Value(d) * Pow10(n)
  {
    var r := Raised(d, n);
    if n == 0 {
      assert r == d;
    } else {
      assert r[1..] == Raised(d, n - 1) && r[0] == 0;
      ValueRaised(d, n - 1);
      assert 10 * (Value(d) * Pow10(n - 1)) == Value(d) * (10 * Pow10(n - 1));
    }
  }

  lemma {:induction false} ValuePadded(d: seq<nat>, z: seq<nat>)
    requires AllOf(z, 0)
    ensures Value(d + z) == Value(d)
    decreases |d| + |z|
  {
    if d != [] {
      assert (d + z)[1..] == d[1..] + z;
      ValuePadded(d[1..], z);
    } else if z != [] {
      assert d + z == z && z[1..] == [] + z[1..];
      ValuePadded([], z[1..]);
    }
  }

  lemma ValueTrimmed(d: seq<nat>)
    requires d != []
    ensures Value(Trim(d)) == Value(d)
  {
    PadTrimmed(d);
    var t := Trim(d);
    assert d == t + d[|t|..];
    ValuePadded(t, d[|t|..]);
  }

  /** A trimmed string of digits is as long as its value. */
  lemma {:induction false} ValueBounds(d: seq<nat>)
    requires AllDigits(d) && d != []
    ensures Value(d) < Pow10(|d|) && (d[|d| - 1] != 0 ==> Pow10(|d| - 1) <= Value(d))
  {
    if |d| == 1 {
      assert d[1..] == [] && Pow10(1) == 10 && Pow10(0) == 1;
    } else {
      assert d[1..][|d| - 2] == d[|d| - 1];
      ValueBounds(d[1..]);
    }
  }

  // ---- the fields ----

  /** The high word: sign, combination field, exponent continuation, and the top of the coefficient continuation. */
  datatype High = High(sign: nat, comb: nat, low: nat, cont: nat) {
    predicate Valid() {
      sign < 2 && comb < 32 && low < 256 && cont < 0x4_0000
    }

    function Word(): nat {
      cont + 0x4_0000 * low + 0x400_0000 * comb + 0x8000_0000 * sign
    }
  }

  /** Its fields, by shifts and masks. */
  function SplitHigh(hi: nat): High {
    High(hi / 0x8000_0000, hi / 0x400_0000 % 32, hi / 0x4_0000 % 256, hi % 0x4_0000)
  }

  lemma HighSplit(hi: nat)
    requires hi < 0x1_0000_0000
    ensures SplitHigh(hi).Valid() && SplitHigh(hi).Word() == hi
  {
    var a := hi / 0x4_0000;
    assert hi / 0x400_0000 == a / 256 && hi / 0x8000_0000 == a / 256 / 32;
    assert a == a / 256 * 256 + a % 256 && a / 256 == a / 256 / 32 * 32 + a / 256 % 32;
  }

  /** The same, by what they add up to. */
  ghost function HighOf(hi: nat): High {
    if hi < 0x1_0000_0000 then
      HighSplit(hi);
      var h: High :| h.Valid() && h.Word() == hi;
      h
    else High(0, 0, 0, 0)
  }

  lemma SameHigh(h: High, h': High)
    requires h.Valid() && h'.Valid() && h.Word() == h'.Word()
    ensures h == h'
  {
  }

  lemma WordOfHigh(hi: nat)
    requires hi < 0x1_0000_0000
    ensures HighOf(hi).Valid() && HighOf(hi).Word() == hi
  {
    HighSplit(hi);
  }

  ghost function SignBit(hi: nat): nat {
    HighOf(hi).sign
  }

  ghost function CombField(hi: nat): nat {
    HighOf(hi).comb
  }

  ghost function ExpField(hi: nat): nat {
    HighOf(hi).low
  }

  ghost function ContField(hi: nat): nat {
    HighOf(hi).cont
  }

  /** Takes a high word apart. */
  method TakeHigh(hi: nat) returns (sign: nat, comb: nat, low: nat, cont: nat)
    requires hi < 0x1_0000_0000
    ensures sign == SignBit(hi) < 2 && comb == CombField(hi) < 32 && low == ExpField(hi) < 256 && cont == ContField(hi) < 0x4_0000
  {
    var h := SplitHigh(hi);
    HighSplit(hi);
    WordOfHigh(hi);
    SameHigh(h, HighOf(hi));
    sign, comb, low, cont := h.sign, h.comb, h.low, h.cont;
  }

  /** What the combination field says (COMBEXP, COMBMSD): the top bits of the exponent, 3 for a special
      value, and the most significant digit. */
  function CombExp(comb: nat): nat {
    if comb < 24 then comb / 8 else comb / 2 % 4
  }

  function CombMsd(comb: nat): nat {
    if comb < 24 then comb % 8 else if comb < 30 then 8 + comb % 2 else comb % 2
  }

  /** The combination field for a biased exponent and a digit: the ORs are of bits in no common place. */
  function Comb(exp: nat, msd: nat): nat {
    if msd >= 8 then 0x18 + exp / 256 * 2 + msd % 2 else exp / 256 * 8 + msd
  }

  lemma CombFields(exp: nat, msd: nat)
    requires exp < 768 && msd <= 9
    ensures Comb(exp, msd) < 30 && CombExp(Comb(exp, msd)) == exp / 256 && CombMsd(Comb(exp, msd)) == msd
  {
  }

  function HighWord(sign: nat, comb: nat, low: nat, cont: nat): nat {
    High(sign, comb, low, cont).Word()
  }

  lemma HighFields(sign: nat, comb: nat, low: nat, cont: nat)
    requires sign < 2 && comb < 32 && low < 256 && cont < 0x4_0000
    ensures var hi := HighWord(sign, comb, low, cont);
      hi < 0x1_0000_0000 && SignBit(hi) == sign && CombField(hi) == comb && ExpField(hi) == low && ContField(hi) == cont
  {
    var hi := HighWord(sign, comb, low, cont);
    assert hi < 0x1_0000_0000;
    WordOfHigh(hi);
    SameHigh(High(sign, comb, low, cont), HighOf(hi));
  }

  // ---- what two words denote ----

  /** The number n declets stand for. */
  ghost function Number(v: nat, n: nat): nat {
    if n == 0 then 0 else Decode(v % 1024) + 1000 * Number(v / 1024, n - 1)
  }

  /** 1024^n. */
  function Shifts(n: nat): (p: nat)
    ensures p >= 1
  {
    if n == 0 then 1 else 1024 * Shifts(n - 1)
  }

  const BIAS: int := 398

  ghost predicate IsSpecial(hi: nat) {
    CombExp(CombField(hi)) == 3
  }

  /** A digit in front of fifteen others. */
  function Sixteen(msd: nat, low: nat): nat {
    msd * 1000000000000000 + low
  }

  lemma Fifteen()
    ensures Pow10(15) == 1000000000000000
  {
    assert Pow10(5) == 100000;
    Pow10Add(5, 5);
    Pow10Add(10, 5);
  }

  /** The digit of the combination field in front of the fifteen of the declets. */
  ghost function Coefficient(lo: nat, hi: nat): nat {
    Sixteen(CombMsd(CombField(hi)), Number(Words([lo, ContField(hi)]), 5))
  }

  ghost function Exponent(hi: nat): int {
    CombExp(CombField(hi)) * 256 + ExpField(hi) - BIAS
  }

  /** The finite number encoded. */
  ghost function Datum64(lo: nat, hi: nat): DecFloat
    requires !IsSpecial(hi)
  {
    Finite(SignBit(hi) == 1, Coefficient(lo, hi), Exponent(hi))
  }

  /** The datum two words denote: of a special value the exponent's top bit tells whether it signals, and
      the declets are its payload. */
  ghost function Denoted(lo: nat, hi: nat): DecFloat {
    if !IsSpecial(hi) then Datum64(lo, hi)
    else if CombMsd(CombField(hi)) == 0 then Infinite(SignBit(hi) == 1)
    else NaN(SignBit(hi) == 1, ExpField(hi) >= 128, Number(Words([lo, ContField(hi)]), 5))
  }

  /** Where the fields are: from the right, 18 bits of the coefficient, 8 of the exponent, 5 of the combination field,
      and the sign. */
  lemma FieldPlaces(hi: nat)
    requires hi < 0x1_0000_0000
    ensures hi == ContField(hi) + 0x4_0000 * ExpField(hi) + 0x400_0000 * CombField(hi) + 0x8000_0000 * SignBit(hi)
    ensures ContField(hi) < 0x4_0000 && ExpField(hi) < 256 && CombField(hi) < 32 && SignBit(hi) < 2
  {
    WordOfHigh(hi);
  }

  /** What the five bits of the combination field say: two bits of the exponent and a digit, which moves them when it is
      eight or nine; four ones are a special value, the fifth tells infinity from NaN. */
  lemma CombBits(a: bool, b: bool, c: bool, d: bool, e: bool)
    ensures var comb := 16 * Bit(a) + 8 * Bit(b) + 4 * Bit(c) + 2 * Bit(d) + Bit(e);
      && CombExp(comb) == (if !(a && b) then 2 * Bit(a) + Bit(b) else if !(c && d) then 2 * Bit(c) + Bit(d) else 3)
      && CombMsd(comb) == (if !(a && b) then 4 * Bit(c) + 2 * Bit(d) + Bit(e) else if !(c && d) then 8 + Bit(e) else Bit(e))
  {
  }

  /** The datum of two words: the exponent is biased by 398, the digit stands before fifteen others, and of a NaN the
      first bit of the exponent continuation tells whether it signals. */
  lemma DenotedMeans(lo: nat, hi: nat)
    ensures var msd, exp, n := CombMsd(CombField(hi)), CombExp(CombField(hi)), Number(Words([lo, ContField(hi)]), 5);
      && (exp != 3 ==> Denoted(lo, hi) == Finite(SignBit(hi) == 1, msd * 1000000000000000 + n, exp * 256 + ExpField(hi) - 398))
      && (exp == 3 && msd == 0 ==> Denoted(lo, hi) == Infinite(SignBit(hi) == 1))
      && (exp == 3 && msd != 0 ==> Denoted(lo, hi) == NaN(SignBit(hi) == 1, ExpField(hi) >= 128, n))
  {
    hide Words, Number, SignBit, CombField, ExpField, ContField, CombExp, CombMsd;
  }

  // ---- six declets, the last of one digit ----

  lemma WordsOfTwo(lo: nat, hi: nat)
    ensures Words([lo, hi]) == lo + 0x1_0000_0000 * hi
  {
    assert [lo, hi][1..] == [hi] && [hi][1..] == [];
    assert Words([hi]) == hi;
  }

  /** 2^50. */
  const TOP: nat := 0x4_0000_0000_0000

  /** The top digit in front of the continuation makes a sixth declet. */
  lemma WithTop(lo: nat, cont: nat, msd: nat)
    requires lo < 0x1_0000_0000 && cont < 0x4_0000
    ensures Words([lo, cont + 0x4_0000 * msd]) == Words([lo, cont]) + TOP * msd && Words([lo, cont]) < TOP
  {
    WordsOfTwo(lo, cont);
    WordsOfTwo(lo, cont + 0x4_0000 * msd);
  }

  lemma {:induction false} NumberZero(m: nat)
    ensures Number(0, m) == 0
  {
    hide *;
    if m == 0 {
      NothingThere(0);
    } else {
      NumberZero(m - 1);
      EncodeZero();
      NumberStep(0, m);
      assert 0 % 1024 == 0 && 0 / 1024 == 0;
    }
  }

  lemma NumberDigit(top: nat, m: nat)
    requires top <= 9 && m > 0
    ensures Number(top, m) == top
  {
    hide *;
    SmallCodes(top);
    NumberZero(m - 1);
    NumberStep(top, m);
  }

  lemma NumberStep(v: nat, n: nat)
    requires n > 0
    ensures Number(v, n) == Decode(v % 1024) + 1000 * Number(v / 1024, n - 1)
  {
    hide Decode;
  }

  /** x at the declet above n others, as bits and as decimal digits. */
  function AsBits(x: nat, n: nat): nat {
    x * Shifts(n)
  }

  function AsDigits(x: nat, n: nat): nat {
    x * Pow10(3 * n)
  }

  lemma AtBottom(x: nat)
    ensures AsBits(x, 0) == x && AsDigits(x, 0) == x && Shifts(0) == 1
  {
    assert Pow10(0) == 1;
  }

  lemma OneDecletUp(x: nat, n: nat)
    requires n > 0
    ensures AsBits(x, n) == 1024 * AsBits(x, n - 1) && AsDigits(x, n) == 1000 * AsDigits(x, n - 1)
    ensures Shifts(n) == 1024 * Shifts(n - 1)
  {
    var p, q := Shifts(n - 1), Pow10(3 * n - 3);
    assert Pow10(3 * n - 1) == 100 * q by {
      assert Pow10(3 * n - 2) == 10 * q;
    }
    assert Pow10(3 * n) == 1000 * q;
    hide Pow10, Shifts;
    MulThousand(x, q);
    MulDeclet(x, p);
  }

  lemma MulDeclet(a: nat, p: nat)
    ensures a * (1024 * p) == 1024 * (a * p)
  {
  }

  lemma SixteenIs(msd: nat, low: nat)
    ensures Sixteen(msd, low) == AsDigits(msd, 5) + low == msd * 1000000000000000 + low
    ensures Sixteen(0, low) == low
  {
    Fifteen();
    hide Pow10;
    assert 3 * 5 == 15;
  }

  /** A digit in a declet of its own above the n others adds itself times 1000^n. */
  lemma {:induction false} NumberHigher(v: nat, n: nat, m: nat, top: nat)
    requires v < Shifts(n) && top <= 9 && n < m
    ensures Number(v + AsBits(top, n), m) == Number(v, n) + AsDigits(top, n)
    decreases n
  {
    hide *;
    if n == 0 {
      NumberDigit(top, m);
      AtBottom(top);
      NothingThere(v);
    } else {
      OneDecletUp(top, n);
      var w := v + AsBits(top, n);
      PartsOf(v, AsBits(top, n - 1));
      assert w % 1024 == v % 1024 && w / 1024 == v / 1024 + AsBits(top, n - 1);
      NumberHigher(v / 1024, n - 1, m - 1, top);
      NumberStep(v, n);
      NumberStep(w, m);
    }
  }

  lemma NothingThere(v: nat)
    ensures Number(v, 0) == 0
  {
  }

  lemma MulThousand(a: nat, p: nat)
    ensures a * (1000 * p) == 1000 * (a * p)
  {
  }

  /** The digits of the declets are those of their number. */
  lemma {:induction false} ValueDecoded(v: nat, n: nat)
    ensures Value(Decoded(v, n)) == Number(v, n)
  {
    hide *;
    if n == 0 {
      NoneDecoded(v);
      NothingThere(v);
      NoDigitsNoValue();
    } else {
      ValueDecoded(v / 1024, n - 1);
      DecodedStep(v, n);
      NumberStep(v, n);
      DecodeBounds(v % 1024);
      ThreeValue(Decoded(v, n), Decode(v % 1024));
    }
  }

  lemma NoDigitsNoValue()
    ensures Value([]) == 0
  {
  }

  lemma ThreeValue(d: seq<nat>, b: nat)
    requires |d| >= 3 && d[..3] == Three(b) && b < 1000
    ensures Value(d) == b + 1000 * Value(d[3..])
  {
    assert d[0] == d[..3][0] && d[1] == d[..3][1] && d[2] == d[..3][2];
    FirstDigit(d);
    FirstDigit(d[1..]);
    FirstDigit(d[2..]);
    assert d[1..][1..] == d[2..] && d[2..][1..] == d[3..];
    hide Value;
    NumberOfTriple(b);
  }

  lemma FirstDigit(d: seq<nat>)
    requires d != []
    ensures Value(d) == d[0] + 10 * Value(d[1..])
  {
  }

  /** Where the top digit is split off, when the rest lies below bit 50. */
  lemma SplitTop(lo: nat, hi: nat, low: nat, msd: nat)
    requires lo < 0x1_0000_0000 && low < TOP && Words([lo, hi]) == low + msd * TOP
    ensures hi / 0x4_0000 == msd && Words([lo, hi % 0x4_0000]) == low
  {
    WordsOfTwo(lo, hi);
    WordsOfTwo(lo, hi % 0x4_0000);
    var q, c, w := hi / 0x4_0000, hi % 0x4_0000, Words([lo, hi]);
    hide Words;
    var rest := lo + 0x1_0000_0000 * c;
    assert w == q * TOP + rest && rest < TOP;
    DivModUnique(w, TOP, msd, low);
    DivModUnique(w, TOP, q, rest);
  }

  lemma TopShift(x: nat)
    ensures AsBits(x, 5) == x * TOP && Shifts(5) == TOP
  {
    assert Shifts(2) == 0x10_0000 && Shifts(3) == 0x4000_0000;
    hide Pow10;
  }

  // ---- canonical encodings ----

  /** The n declets are those the encoder makes. */
  ghost predicate CanonicalDeclets(v: nat, n: nat) {
    n == 0 || (Encode(Decode(v % 1024)) == v % 1024 && CanonicalDeclets(v / 1024, n - 1))
  }

  /** Canonical declets, and no bit set in a special value that says nothing. */
  ghost predicate Canonical64(lo: nat, hi: nat) {
    && CanonicalDeclets(Words([lo, ContField(hi)]), 5)
    && (IsSpecial(hi) ==> (ExpField(hi) == 0 || ExpField(hi) == 128))
    && (IsSpecial(hi) && CombMsd(CombField(hi)) == 0 ==> ExpField(hi) == 0 && ContField(hi) == 0 && lo == 0)
  }

  lemma CanonicalStep(v: nat, n: nat)
    ensures CanonicalDeclets(v, n) <==> n == 0 || (Encode(Decode(v % 1024)) == v % 1024 && CanonicalDeclets(v / 1024, n - 1))
  {
  }

  lemma NoDeclets()
    ensures Number(0, 0) == 0 && CanonicalDeclets(0, 0)
  {
  }

  lemma FirstDeclet(w: nat, x: nat, v: nat, n: nat)
    requires x < 1024 && w == x + 1024 * v
    ensures Number(w, n + 1) == Decode(x) + 1000 * Number(v, n)
    ensures CanonicalDeclets(w, n + 1) <==> Encode(Decode(x)) == x && CanonicalDeclets(v, n)
  {
    hide *;
    DivModUnique(w, 1024, v, x);
    NumberStep(w, n + 1);
    CanonicalStep(w, n + 1);
  }

  /** Where the declets are, and what they are worth. */
  lemma FiveDeclets(a: nat, b: nat, c: nat, d: nat, e: nat)
    requires a < 1024 && b < 1024 && c < 1024 && d < 1024 && e < 1024
    ensures var v := a + 1024 * b + 0x10_0000 * c + 0x4000_0000 * d + 0x100_0000_0000 * e;
      && Number(v, 5) == Decode(a) + 1000 * Decode(b) + 1000000 * Decode(c) + 1000000000 * Decode(d) + 1000000000000 * Decode(e)
      && (CanonicalDeclets(v, 5) <==> Encode(Decode(a)) == a && Encode(Decode(b)) == b && Encode(Decode(c)) == c
                                      && Encode(Decode(d)) == d && Encode(Decode(e)) == e)
  {
    hide *;
    NoDeclets();
    var de := d + 1024 * e;
    var cde := c + 1024 * de;
    var bcde := b + 1024 * cde;
    FirstDeclet(e, e, 0, 0);
    FirstDeclet(de, d, e, 1);
    FirstDeclet(cde, c, de, 2);
    FirstDeclet(bcde, b, cde, 3);
    FirstDeclet(a + 1024 * bcde, a, bcde, 4);
  }

  /** Canonical words: there is one pair for each infinity, and a NaN sets no bit between its kind and its payload. */
  lemma CanonicalMeans(lo: nat, hi: nat)
    requires lo < 0x1_0000_0000 && hi < 0x1_0000_0000
    ensures Denoted(lo, hi).Infinite? ==> (Canonical64(lo, hi) <==> lo == 0 && (hi == 0x7800_0000 || hi == 0xF800_0000))
    ensures Denoted(lo, hi).NaN? ==>
      (Canonical64(lo, hi) <==>
         && hi == ContField(hi) + 0x7C00_0000 + (if Denoted(lo, hi).signaling then 0x200_0000 else 0) + (if Denoted(lo, hi).neg then 0x8000_0000 else 0)
         && CanonicalDeclets(lo + 0x1_0000_0000 * ContField(hi), 5))
    ensures Denoted(lo, hi).Finite? ==> (Canonical64(lo, hi) <==> CanonicalDeclets(lo + 0x1_0000_0000 * ContField(hi), 5))
  {
    hide Number, CanonicalDeclets, Words, HighOf;
    FieldPlaces(hi);
    WordsOfTwo(lo, ContField(hi));
    ZeroDeclets(5);
  }

  lemma {:induction false} ZeroDeclets(n: nat)
    ensures CanonicalDeclets(0, n)
  {
    hide *;
    CanonicalStep(0, n);
    if n > 0 {
      ZeroDeclets(n - 1);
      EncodeZero();
    }
  }

  /** A special value put together from its fields. */
  lemma AssembledSpecial(neg: bool, low: nat, lo: nat, hi: nat)
    requires SignBit(hi) == (if neg then 1 else 0) && ExpField(hi) == low && (low == 0 || low == 128)
    requires CombField(hi) == 31 || (CombField(hi) == 30 && low == 0 && ContField(hi) == 0 && lo == 0)
    ensures Denoted(lo, hi) == if CombField(hi) == 30 then Infinite(neg) else NaN(neg, low == 128, Number(Words([lo, ContField(hi)]), 5))
    ensures Canonical64(lo, hi) <==> CanonicalDeclets(Words([lo, ContField(hi)]), 5)
  {
    assert CombExp(30) == 3 && CombExp(31) == 3 && CombMsd(30) == 0 && CombMsd(31) == 1;
    hide Number, Words, CombField, ExpField, ContField, SignBit, CombMsd, CombExp, CanonicalDeclets;
  }

  /** The packer's declets are canonical. */
  lemma {:induction false} DecletsCanonical(r: seq<nat>, n: nat)
    requires AllDigits(r)
    ensures CanonicalDeclets(Declets(r), n)
    decreases n
  {
    hide *;
    CanonicalStep(Declets(r), n);
    if n > 0 {
      LowDeclet(r);
      DecletsParts(r);
      BeyondDigits(r);
      DecletsCanonical(Beyond(r), n - 1);
    }
  }

  lemma LowDeclet(r: seq<nat>)
    requires AllDigits(r)
    ensures Encode(Decode(Declets(r) % 1024)) == Declets(r) % 1024
  {
    hide *;
    BinBound(r);
    DecodeEncode(Bin(r));
    EncodeZero();
    if r == [] {
      NoDigits();
      assert 0 % 1024 == 0;
    } else {
      DecletsSplit(r);
      PartsOf(Encode(Bin(r)), Declets(Beyond(r)));
      assert Encode(Bin(r)) % 1024 == Encode(Bin(r));
    }
  }

  lemma ZeroWords()
    ensures CanonicalDeclets(Words([0, 0]), 5)
  {
    hide Words, CanonicalDeclets;
    WordsOfTwo(0, 0);
    DecletsCanonical([], 5);
    NoDigits();
  }

  /** What lies above the n declets does not matter. */
  lemma {:induction false} CanonicalLow(v: nat, n: nat, top: nat)
    ensures CanonicalDeclets(v + AsBits(top, n), n) <==> CanonicalDeclets(v, n)
  {
    hide *;
    CanonicalStep(v, n);
    CanonicalStep(v + AsBits(top, n), n);
    if n > 0 {
      OneDecletUp(top, n);
      PartsOf(v, AsBits(top, n - 1));
      CanonicalLow(v / 1024, n - 1, top);
    }
  }

  lemma {:induction false} NumberBound(v: nat, n: nat)
    ensures Number(v, n) < Pow10(3 * n)
  {
    hide *;
    if n == 0 {
      NothingThere(v);
      AtBottom(1);
      OneTimes(Pow10(0));
    } else {
      NumberStep(v, n);
      DecodeBounds(v % 1024);
      NumberBound(v / 1024, n - 1);
      OneDecletUp(1, n);
      OneAsDigits(n);
    }
  }

  lemma OneTimes(p: nat)
    requires p == Pow10(0)
    ensures p == 1
  {
  }

  lemma OneAsDigits(n: nat)
    requires n > 0
    ensures AsDigits(1, n) == Pow10(3 * n) && AsDigits(1, n - 1) == Pow10(3 * (n - 1))
  {
    hide Pow10;
  }

  /** Canonical declets of one number are the same. */
  lemma {:induction false} CanonicalUnique(v: nat, w: nat, n: nat)
    requires v < Shifts(n) && w < Shifts(n) && CanonicalDeclets(v, n) && CanonicalDeclets(w, n)
    requires Number(v, n) == Number(w, n)
    ensures v == w
  {
    hide *;
    CanonicalStep(v, n);
    CanonicalStep(w, n);
    if n == 0 {
      AtBottom(0);
    } else {
      OneDecletUp(1, n);
      NumberStep(v, n);
      NumberStep(w, n);
      DecodeBounds(v % 1024);
      DecodeBounds(w % 1024);
      CanonicalUnique(v / 1024, w / 1024, n - 1);
    }
  }

  lemma CombUnique(a: nat, b: nat)
    requires a < 32 && b < 32 && CombExp(a) == CombExp(b) != 3 && CombMsd(a) == CombMsd(b)
    ensures a == b
  {
  }

  lemma HighUnique(hi: nat)
    requires hi < 0x1_0000_0000
    ensures hi == HighWord(SignBit(hi), CombField(hi), ExpField(hi), ContField(hi))
    ensures ContField(hi) < 0x4_0000 && ExpField(hi) < 256 && CombField(hi) < 32 && SignBit(hi) < 2
  {
    WordOfHigh(hi);
  }

  lemma LowBits(lo: nat, cont: nat)
    requires lo < 0x1_0000_0000 && cont < 0x4_0000
    ensures Words([lo, cont]) < Shifts(5) && Words([lo, cont]) % 0x1_0000_0000 == lo && Words([lo, cont]) / 0x1_0000_0000 == cont
  {
    WordsOfTwo(lo, cont);
    assert Shifts(2) == 0x10_0000 && Shifts(3) == 0x4000_0000;
  }

  /** The digits above 10^15 and those below it. */
  lemma CoefficientParts(lo: nat, hi: nat)
    ensures Coefficient(lo, hi) / 1000000000000000 == CombMsd(CombField(hi))
    ensures Coefficient(lo, hi) % 1000000000000000 == Number(Words([lo, ContField(hi)]), 5)
  {
    hide Pow10, CombMsd, CombField, Number, Words, ContField;
    Fifteen();
    NumberBound(Words([lo, ContField(hi)]), 5);
    DivModUnique(Coefficient(lo, hi), 1000000000000000, CombMsd(CombField(hi)), Number(Words([lo, ContField(hi)]), 5));
  }

  /** Two canonical encodings of one datum are the same words. */
  lemma WordsDetermined(lo: nat, hi: nat, lo': nat, hi': nat)
    requires lo < 0x1_0000_0000 && hi < 0x1_0000_0000 && lo' < 0x1_0000_0000 && hi' < 0x1_0000_0000
    requires Canonical64(lo, hi) && Canonical64(lo', hi') && Denoted(lo, hi) == Denoted(lo', hi')
    ensures lo == lo' && hi == hi'
  {
    var c, c' := ContField(hi), ContField(hi');
    SameFields(lo, hi, lo', hi');
    hide *;
    HighUnique(hi);
    HighUnique(hi');
    LowBits(lo, c);
    LowBits(lo', c');
    CanonicalUnique(Words([lo, c]), Words([lo', c']), 5);
  }

  lemma SpecialComb(a: nat)
    requires a < 32 && CombExp(a) == 3
    ensures a == 30 + CombMsd(a) && CombMsd(a) < 2
  {
  }

  lemma SameFields(lo: nat, hi: nat, lo': nat, hi': nat)
    requires lo < 0x1_0000_0000 && hi < 0x1_0000_0000 && lo' < 0x1_0000_0000 && hi' < 0x1_0000_0000
    requires Canonical64(lo, hi) && Canonical64(lo', hi') && Denoted(lo, hi) == Denoted(lo', hi')
    ensures SignBit(hi) == SignBit(hi') && CombField(hi) == CombField(hi') && ExpField(hi) == ExpField(hi')
    ensures Number(Words([lo, ContField(hi)]), 5) == Number(Words([lo', ContField(hi')]), 5)
    ensures CanonicalDeclets(Words([lo, ContField(hi)]), 5) && CanonicalDeclets(Words([lo', ContField(hi')]), 5)
  {
    hide Number, Words, CanonicalDeclets, HighOf, Coefficient, SignBit, CombField, ExpField, ContField, CombMsd, CombExp, HighWord;
    HighUnique(hi);
    HighUnique(hi');
    CoefficientParts(lo, hi);
    CoefficientParts(lo', hi');
    var a, b := CombField(hi), CombField(hi');
    if IsSpecial(hi) {
      SpecialComb(a);
      SpecialComb(b);
    } else {
      CombUnique(a, b);
    }
  }

  lemma CombRange(comb: nat)
    requires comb < 32
    ensures CombExp(comb) <= 3 && CombMsd(comb) <= 9
  {
  }

  /** Any two words denote a datum of the format. */
  lemma DenotedFits(lo: nat, hi: nat)
    requires hi < 0x1_0000_0000
    ensures Denoted(lo, hi).Fits(DOUBLE)
  {
    hide Pow10, Number, Words, CombExp, CombMsd, CombField, ExpField, ContField, SignBit, Sixteen;
    var n, msd := Number(Words([lo, ContField(hi)]), 5), CombMsd(CombField(hi));
    HighUnique(hi);
    CombRange(CombField(hi));
    NumberBound(Words([lo, ContField(hi)]), 5);
    Fifteen();
    Pow10Next(15);
    SixteenIs(msd, n);
  }
}
