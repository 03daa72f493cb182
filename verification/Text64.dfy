/** decimal64ToString: the text of any two words, straight from their declets. */
module Text64 {
  import opened Powers
  import opened Digits
  import opened Formats
  import opened Dpd
  import opened DpdWords
  import opened Interchange64
  import opened Printing
  import opened ToString

  // ---- moving one character at a time ----

  /** The characters from s on are gap places to the right, the others where they were. */
  ghost predicate Moved(was: string, now: string, s: nat, c: nat, gap: nat) {
    s <= c && c + gap <= |was| == |now| && now[s + gap..c + gap] == was[s..c] && now[..s] == was[..s]
  }

  lemma MoveOne(was: string, now: string, next: string, s: nat, c: nat, gap: nat)
    requires Moved(was, now, s + 1, c, gap) && next == now[s + gap := now[s]]
    ensures Moved(was, next, s, c, gap)
  {
    assert now[s] == now[..s + 1][s] == was[s];
    assert now[..s] == now[..s + 1][..s];
    assert next[s + gap..c + gap] == [was[s]] + now[s + 1 + gap..c + gap];
  }

  lemma MovedAll(was: string, now: string, from: nat, c: nat, gap: nat)
    requires Moved(was, now, from, c, gap)
    ensures now[from + gap..c + gap] == was[from..c] && now[..from] == was[..from]
  {
  }

  /** Moves str[from..c] to the right by gap places, from the right end (the loops that open a gap for the dot
      and shift a coefficient). */
  method MoveRight(str: array<char>, from: nat, c: nat, gap: nat)
    requires from <= c && c + gap <= str.Length
    modifies str
    ensures str[from + gap..c + gap] == old(str[from..c]) && str[..from] == old(str[..from])
  {
    var s := c;
    ghost var was := str[..];
    while s > from
      invariant from <= s <= c && Moved(was, str[..], s, c, gap)
    {
      s := s - 1;
      ghost var now := str[..];
      str[s + gap] := str[s];
      MoveOne(was, now, str[..], s, c, gap);
    }
    MovedAll(was, str[..], from, c, gap);
  }

  method PutDot(str: array<char>, dotat: nat, c: nat)
    requires dotat < c < str.Length
    modifies str
    ensures str[..c + 1] == old(str[..dotat]) + ("." + old(str[dotat..c]))
  {
    hide *;
    ghost var tail, head := str[dotat..c], str[..dotat];
    MoveRight(str, dotat, c, 1);
    str[dotat] := '.';
    Slices(str[..], 0, dotat, c + 1);
    Slices(str[..], dotat, dotat + 1, c + 1);
    assert str[dotat..dotat + 1] == ".";
    assert str[dotat + 1..c + 1] == tail;
    assert str[0..dotat] == head;
  }

  /** Puts 0. and zeros in a gap, one at a time. */
  method FillZeros(str: array<char>, cstart: nat, zeros: nat)
    requires cstart + zeros + 2 <= str.Length
    modifies str
    ensures str[cstart..cstart + zeros + 2] == "0." + ZeroChars(zeros)
    ensures forall k :: 0 <= k < str.Length && !(cstart <= k < cstart + zeros + 2) ==> str[k] == old(str[k])
  {
    hide *;
    var c := cstart;
    str[c], str[c + 1] := '0', '.';
    c := c + 2;
    while c < cstart + 2 + zeros
      invariant cstart + 2 <= c <= cstart + 2 + zeros && str[cstart] == '0' && str[cstart + 1] == '.'
      invariant forall k :: cstart + 2 <= k < c ==> str[k] == '0'
      invariant forall k :: 0 <= k < str.Length && !(cstart <= k < cstart + zeros + 2) ==> str[k] == old(str[k])
    {
      str[c] := '0';
      c := c + 1;
    }
    GapFilled(str[cstart..cstart + zeros + 2], zeros + 2);
  }

  /** Moves the digits to the right and puts 0. and zeros in front of them. */
  method PutZeros(str: array<char>, cstart: nat, c: nat, zeros: nat)
    requires cstart <= c && c + zeros + 2 < str.Length
    modifies str
    ensures str[..c + 2 + zeros] == old(str[..cstart]) + (("0." + ZeroChars(zeros)) + old(str[cstart..c]))
  {
    hide *;
    ghost var tail, head := str[cstart..c], str[..cstart];
    var gap := zeros + 2;
    MoveRight(str, cstart, c, gap);
    ghost var moved := str[..];
    FillZeros(str, cstart, zeros);
    SamePart(moved, str[..], 0, cstart);
    SamePart(moved, str[..], cstart + gap, c + gap);
    Slices(str[..], 0, cstart, c + gap);
    Slices(str[..], cstart, cstart + gap, c + gap);
  }

  lemma ExponentLength(e: int)
    requires -1000 < e < 1000
    ensures |ExponentChars(e)| <= 5
  {
    var m := if e < 0 then 0 - e else e;
    DigitCharsFacts(m);
    DigitsAtMost(m, 3);
    assert Pow10(3) == 1000;
    hide DigitChars, NumDigits;
  }

  /** A dot among the digits, or zeros in front of them. */
  method PutPoint(str: array<char>, ghost sign: string, ghost d: string, cstart: nat, c: nat, pre: int) returns (len: nat)
    requires d != "" && c <= str.Length && str[..c] == sign + d && cstart == |sign|
    requires -5 <= pre <= |d| && c <= 17 && str.Length >= 24 && (pre <= 0 ==> c + (2 - pre) < str.Length)
    modifies str
    ensures len <= (if pre > 0 then c + 1 else c + (2 - pre)) && str[..len] == Front(sign, d, pre)
  {
    hide *;
    FrontCases(sign, d, pre);
    len := c;
    if pre > 0 {
      SignedParts(str[..], c, sign, d, pre);
      if cstart + pre < c {
        PutDot(str, cstart + pre, c);
        len := c + 1;
      }
    } else {
      SignedParts(str[..], c, sign, d, 0);
      PutZeros(str, cstart, c, 0 - pre);
      len := c + (2 - pre);
    }
  }

  /** Dot or zeros, then the exponent if there is one, around the digits. */
  method LayText(str: array<char>, neg: bool, ghost d: string, cstart: nat, c: nat, pre: int, e: int) returns (len: nat)
    requires d != "" && c <= str.Length && str[..c] == SignChars(neg) + d && cstart == |SignChars(neg)|
    requires -5 <= pre <= |d| && -1000 < e < 1000 && c <= 17 && str.Length >= 24
    requires pre <= 0 ==> e == 0 && c + (2 - pre) < str.Length
    modifies str
    ensures len < str.Length && str[..len] == PlainNumeral(neg, d, pre, ExponentChars(e)).Text()
  {
    hide *;
    PlainText(neg, d, pre, ExponentChars(e));
    ExponentLength(e);
    len := PutPoint(str, SignChars(neg), d, cstart, c, pre);
    if e != 0 {
      ghost var front := str[..len];
      len := PutExponent(str, len, e);
      assert |str[..len]| == |front| + |ExponentChars(e)|;
    } else {
      NoExponent();
      JoinNothing(str[..len]);
    }
  }

  // ---- the coefficient ----

  /** The five declets, taken from the words where they lie. */
  lemma WhereDeclets(lo: nat, cont: nat)
    requires lo < 0x1_0000_0000 && cont < 0x4_0000
    ensures var v := Words([lo, cont]);
      && cont / 0x100 == v / 0x100_0000_0000 && cont / 0x100 < 1024
      && cont % 0x100 * 4 + lo / 0x4000_0000 == v / 0x4000_0000 % 1024
      && lo / 0x10_0000 % 1024 == v / 0x10_0000 % 1024 && lo / 0x400 % 1024 == v / 0x400 % 1024 && lo % 1024 == v % 1024
  {
    hide *;
    WordsOfTwo(lo, cont);
    HighDeclets(lo, cont, Words([lo, cont]));
    LowFields(lo, cont, Words([lo, cont]));
  }

  lemma HighDeclets(lo: nat, cont: nat, v: nat)
    requires lo < 0x1_0000_0000 && cont < 0x4_0000 && v == lo + 0x1_0000_0000 * cont
    ensures cont / 0x100 == v / 0x100_0000_0000 && cont / 0x100 < 1024
    ensures cont % 0x100 * 4 + lo / 0x4000_0000 == v / 0x4000_0000 % 1024
  {
    var a, b, t, u := cont / 0x100, cont % 0x100, lo / 0x4000_0000, lo % 0x4000_0000;
    assert cont == 0x100 * a + b && lo == 0x4000_0000 * t + u && t < 4;
    SplitHigh(a, b, t, u, v);
  }

  lemma SplitHigh(a: nat, b: nat, t: nat, u: nat, v: nat)
    requires b < 0x100 && t < 4 && u < 0x4000_0000
    requires v == 0x4000_0000 * t + u + 0x1_0000_0000 * (0x100 * a + b)
    ensures v / 0x100_0000_0000 == a && v / 0x4000_0000 % 1024 == b * 4 + t
  {
    DivModUnique(v, 0x100_0000_0000, a, 0x4000_0000 * (4 * b + t) + u);
    DivModUnique(v, 0x4000_0000, 1024 * a + (4 * b + t), u);
    DivModUnique(1024 * a + (4 * b + t), 1024, a, 4 * b + t);
  }

  lemma LowFields(lo: nat, cont: nat, v: nat)
    requires v == lo + 0x1_0000_0000 * cont
    ensures lo / 0x10_0000 % 1024 == v / 0x10_0000 % 1024 && lo / 0x400 % 1024 == v / 0x400 % 1024 && lo % 1024 == v % 1024
  {
    DivModUnique(v, 0x10_0000, 0x1000 * cont + lo / 0x10_0000, lo % 0x10_0000);
    DivModUnique(v, 0x400, 0x40_0000 * cont + lo / 0x400, lo % 0x400);
    PartsOf(lo / 0x10_0000, 4 * cont);
    PartsOf(lo / 0x400, 0x1000 * cont);
    PartsOf(lo, 0x40_0000 * cont);
  }

  /** Their number, from the most significant. */
  lemma NumberOfFive(v: nat)
    ensures var d1, d2, d3, d4, d5 := Decode(v / 0x100_0000_0000 % 1024), Decode(v / 0x4000_0000 % 1024),
      Decode(v / 0x10_0000 % 1024), Decode(v / 0x400 % 1024), Decode(v % 1024);
      Number(v, 5) == (((d1 * 1000 + d2) * 1000 + d3) * 1000 + d4) * 1000 + d5
  {
    hide *;
    var v1, v2, v3, v4 := v / 0x400, v / 0x10_0000, v / 0x4000_0000, v / 0x100_0000_0000;
    assert v1 / 1024 == v2 && v2 / 1024 == v3 && v3 / 1024 == v4;
    NumberStep(v, 5);
    NumberStep(v1, 4);
    NumberStep(v2, 3);
    NumberStep(v3, 2);
    NumberStep(v4, 1);
    NothingThere(v4 / 1024);
  }

  /** The first digit, if it is not zero. */
  method PutFirst(str: array<char>, cstart: nat, msd: nat) returns (c: nat)
    requires cstart < str.Length && msd <= 9
    modifies str
    ensures cstart <= c <= cstart + 1 && c <= str.Length && str[..cstart] == old(str[..cstart]) && str[cstart..c] == Written(msd)
  {
    hide *;
    ghost var before := str[..cstart];
    OneDigitWritten(msd);
    c := cstart;
    if msd != 0 {
      c := Append(str, c, [CharOf(msd)]);
    }
    SplitAt(str[..c], before, Written(msd));
  }

  /** The digits of five declets after the first. */
  method PutFive(str: array<char>, cstart: nat, c0: nat, d1: nat, d2: nat, d3: nat, d4: nat, d5: nat, ghost msd: nat) returns (c: nat)
    requires cstart <= c0 && c0 + 15 <= str.Length && str[cstart..c0] == Written(msd) && |Written(msd)| == c0 - cstart
    requires d1 < 1000 && d2 < 1000 && d3 < 1000 && d4 < 1000 && d5 < 1000
    modifies str
    ensures c0 <= c <= c0 + 15 && str[..cstart] == old(str[..cstart])
    ensures str[cstart..c] == Written((((((msd * 1000 + d1) * 1000 + d2) * 1000 + d3) * 1000 + d4) * 1000 + d5))
  {
    hide *;
    ghost var w1 := msd * 1000 + d1;
    ghost var w2 := w1 * 1000 + d2;
    ghost var w3 := w2 * 1000 + d3;
    ghost var w4 := w3 * 1000 + d4;
    c := PutDeclet(str, cstart, c0, d1, msd);
    c := PutDeclet(str, cstart, c, d2, w1);
    c := PutDeclet(str, cstart, c, d3, w2);
    c := PutDeclet(str, cstart, c, d4, w3);
    c := PutDeclet(str, cstart, c, d5, w4);
  }

  lemma Digits15(lo: nat, cont: nat, msd: nat)
    requires lo < 0x1_0000_0000 && cont < 0x4_0000
    ensures var d1, d2, d3, d4, d5 := Decode(cont / 0x100), Decode(cont % 0x100 * 4 + lo / 0x4000_0000),
      Decode(lo / 0x10_0000 % 1024), Decode(lo / 0x400 % 1024), Decode(lo % 1024);
      && d1 < 1000 && d2 < 1000 && d3 < 1000 && d4 < 1000 && d5 < 1000
      && Sixteen(msd, Number(Words([lo, cont]), 5)) ==
         ((((msd * 1000 + d1) * 1000 + d2) * 1000 + d3) * 1000 + d4) * 1000 + d5
  {
    hide *;
    var v := Words([lo, cont]);
    SixteenIs(msd, Number(v, 5));
    WhereDeclets(lo, cont);
    NumberOfFive(v);
    DecodeBounds(cont / 0x100);
    DecodeBounds(v / 0x4000_0000 % 1024);
    DecodeBounds(v / 0x10_0000 % 1024);
    DecodeBounds(v / 0x400 % 1024);
    DecodeBounds(v % 1024);
    assert v / 0x100_0000_0000 % 1024 == cont / 0x100;
  }

  /** The first digit, if it is not zero, and the digits of the declets; a zero if there are none. */
  method PutDigits(str: array<char>, cstart: nat, lo: nat, cont: nat, msd: nat) returns (c: nat)
    requires cstart <= 5 && str.Length >= 24 && lo < 0x1_0000_0000 && cont < 0x4_0000 && msd <= 9
    modifies str
    ensures cstart <= c <= cstart + 16 && str[..c] == old(str[..cstart]) + DigitChars(Sixteen(msd, Number(Words([lo, cont]), 5)))
  {
    hide *;
    Digits15(lo, cont, msd);
    c := PutFirst(str, cstart, msd);
    var d1 := DpdToBin(cont / 0x100);
    var d2 := DpdToBin(cont % 0x100 * 4 + lo / 0x4000_0000);
    var d3 := DpdToBin(lo / 0x10_0000 % 1024);
    var d4 := DpdToBin(lo / 0x400 % 1024);
    var d5 := DpdToBin(lo % 1024);
    c := PutFive(str, cstart, c, d1, d2, d3, d4, d5, msd);
    WrittenAll(Sixteen(msd, Number(Words([lo, cont]), 5)));
    Slices(str[..], 0, cstart, c);
    if c == cstart {
      c := Append(str, c, "0");
    }
  }

  // ---- special values ----

  lemma ZeroCode(k: Code)
    requires k.Valid() && DecodeTriple(k).Number() == 0
    ensures k.Bits() == 0
  {
  }

  /** Only zero bits stand for a zero payload. */
  lemma {:induction false} NumberZeroOnly(v: nat, n: nat)
    requires v < Shifts(n) && Number(v, n) == 0
    ensures v == 0
  {
    hide *;
    if n == 0 {
      AtBottom(0);
    } else {
      OneDecletUp(0, n);
      NumberStep(v, n);
      BitsOfCode(v % 1024);
      Unfolded(0, v % 1024);
      ZeroCode(CodeOf(v % 1024));
      NumberZeroOnly(v / 1024, n - 1);
    }
  }

  /** A payload is left out when all its bits are zero, which is when it is zero. */
  lemma NoPayloadText(lo: nat, cont: nat)
    requires lo < 0x1_0000_0000 && cont < 0x4_0000
    ensures lo == 0 && cont == 0 <==> Number(Words([lo, cont]), 5) == 0
  {
    hide *;
    WordsOfTwo(lo, cont);
    LowBits(lo, cont);
    if Number(Words([lo, cont]), 5) == 0 {
      NumberZeroOnly(Words([lo, cont]), 5);
    }
    NumberZero(5);
  }

  lemma DenotedCases(lo: nat, hi: nat)
    requires hi < 0x1_0000_0000
    ensures var x, neg, cont := Denoted(lo, hi), SignBit(hi) == 1, ContField(hi);
      && cont < 0x4_0000 && CombMsd(CombField(hi)) <= 9
      && (CombExp(CombField(hi)) != 3 ==>
            var c, e := Sixteen(CombMsd(CombField(hi)), Number(Words([lo, cont]), 5)), CombExp(CombField(hi)) * 256 + ExpField(hi) - 398;
            x == Finite(neg, c, e) && -398 <= e <= 369)
      && (CombExp(CombField(hi)) == 3 && CombMsd(CombField(hi)) == 0 ==> TextOf(x, false) == SignChars(neg) + "Infinity")
      && (CombExp(CombField(hi)) == 3 && CombMsd(CombField(hi)) != 0 ==>
            TextOf(x, false) ==
              SignChars(neg) + (if ExpField(hi) >= 128 then "sNaN" else "NaN") + Written(Number(Words([lo, cont]), 5)))
  {
    HighUnique(hi);
    CombRange(CombField(hi));
    hide Words, Number, Pow10, Written, SignChars, SignBit, CombField, ExpField, ContField, HighOf, CombExp, CombMsd;
  }

  /** NaN, with an s in front if it signals, and its payload. */
  method LayNaN(str: array<char>, signaling: bool, cstart: nat, lo: nat, cont: nat) returns (len: nat)
    requires cstart <= 1 && str.Length >= 24 && lo < 0x1_0000_0000 && cont < 0x4_0000
    modifies str
    ensures len < str.Length
    ensures str[..len] == old(str[..cstart]) + (if signaling then "sNaN" else "NaN") + Written(Number(Words([lo, cont]), 5))
  {
    hide *;
    NoPayloadText(lo, cont);
    SixteenIs(0, Number(Words([lo, cont]), 5));
    len := cstart;
    if signaling {
      len := Append(str, len, "s");
    }
    ghost var s := str[..len];
    ghost var before := old(str[..cstart]);
    len := Append(str, len, "NaN");
    NaNText(before, s, signaling);
    WrittenEmpty(Number(Words([lo, cont]), 5));
    if lo == 0 && cont == 0 {
      JoinNothing(str[..len]);
    } else {
      WrittenAll(Number(Words([lo, cont]), 5));
      len := PutDigits(str, len, lo, cont, 0);
    }
  }

  lemma NaNText(before: string, s: string, signaling: bool)
    requires s == if signaling then before + "s" else before
    ensures s + "NaN" == before + if signaling then "sNaN" else "NaN"
  {
  }

  /** Digits, dot and exponent of a finite number. */
  method LayFinite(str: array<char>, neg: bool, cstart: nat, lo: nat, cont: nat, msd: nat, exp: int) returns (len: nat)
    requires cstart == |SignChars(neg)| && cstart <= 1 && str.Length >= 24 && str[..cstart] == SignChars(neg)
    requires lo < 0x1_0000_0000 && cont < 0x4_0000 && msd <= 9 && -398 <= exp <= 369
    requires |Scientific(neg, Sixteen(msd, Number(Words([lo, cont]), 5)), exp).Text()| < str.Length
    modifies str
    ensures len < str.Length
    ensures str[..len] == Scientific(neg, Sixteen(msd, Number(Words([lo, cont]), 5)), exp).Text()
  {
    hide *;
    ghost var v := Sixteen(msd, Number(Words([lo, cont]), 5));
    ScientificCases(neg, v, exp);
    DigitsOf(v);
    NoExponent();
    ghost var d := DigitChars(v);
    var c := PutDigits(str, cstart, lo, cont, msd);
    assert |str[..c]| == cstart + |d|;
    if exp == 0 {
      PlainText(neg, d, |d|, ExponentChars(0));
      FrontCases(SignChars(neg), d, |d|);
      JoinNothing(str[..c]);
      return c;
    }
    var e, pre := 0, c - cstart + exp;
    if exp > 0 || pre < -5 {
      e := pre - 1;
      pre := 1;
    }
    PointRoom(neg, d, pre);
    len := LayText(str, neg, d, cstart, c, pre, e);
  }

  /** Zeros in front make the longest texts. */
  lemma PointRoom(neg: bool, d: string, pre: int)
    requires d != ""
    ensures pre <= 0 ==> |PlainNumeral(neg, d, pre, ExponentChars(0)).Text()| == |SignChars(neg)| + |d| + (2 - pre)
    ensures 0 < pre ==> |PlainNumeral(neg, d, pre, ExponentChars(0)).Text()| <= |SignChars(neg)| + |d| + 1
  {
    hide *;
    PlainText(neg, d, pre, ExponentChars(0));
    FrontCases(SignChars(neg), d, pre);
    NoExponent();
    JoinNothing(Front(SignChars(neg), d, pre));
    if pre <= 0 {
      assert |("0." + ZeroChars(0 - pre)) + d| == 2 + (0 - pre) + |d|;
    } else if pre < |d| {
      assert |(SignChars(neg) + d[..pre]) + ("." + d[pre..])| == |SignChars(neg)| + |d| + 1;
    }
  }

  /** decimal64ToString: any two words print as the datum they denote does in decFloatToString, if there is room. */
  method Decimal64ToString(lo: nat, hi: nat, str: array<char>) returns (len: nat)
    requires lo < 0x1_0000_0000 && hi < 0x1_0000_0000 && str.Length >= 24 && |TextOf(Denoted(lo, hi), false)| < str.Length
    modifies str
    ensures len < str.Length && str[len] == '\0' && str[..len] == TextOf(Denoted(lo, hi), false)
  {
    hide *;
    DenotedCases(lo, hi);
    TextIsScientific(if Denoted(lo, hi).Finite? then Denoted(lo, hi) else Finite(false, 0, 0));
    var sign, comb, low, cont := TakeHigh(hi);
    var neg := sign == 1;
    var cstart := PutSign(str, neg);
    var msd, exp := CombMsd(comb), CombExp(comb);
    if exp == 3 {
      if msd == 0 {
        len := Append(str, cstart, "Infinity");
      } else {
        len := LayNaN(str, low >= 128, cstart, lo, cont);
      }
    } else {
      var uexp: int := exp * 256 + low;
      len := LayFinite(str, neg, cstart, lo, cont, msd, uexp - 398);
    }
    ghost var text := str[..len];
    str[len] := '\0';
    assert str[..len] == text;
  }

  // ---- the documented length ----

  /** A negative number of sixteen digits, the first of them a millionth. */
  predicate Longest(x: DecFloat) {
    x.Finite? && x.neg && NumDigits(x.coef) == 16 && x.exp == -21
  }

  lemma ExponentialLength(neg: bool, d: string, e: int)
    requires 0 < |d| <= 16 && -1000 < e < 1000
    ensures |PlainNumeral(neg, d, 1, ExponentChars(e)).Text()| <= 23
  {
    hide *;
    SignLength(neg);
    PlainText(neg, d, 1, ExponentChars(e));
    FrontCases(SignChars(neg), d, 1);
    ExponentLength(e);
    if |d| > 1 {
      assert |(SignChars(neg) + d[..1]) + ("." + d[1..])| == |SignChars(neg)| + |d| + 1;
    }
  }

  lemma ScientificLength(neg: bool, c: nat, e: int)
    requires NumDigits(c) <= 16 && -398 <= e <= 369
    ensures |Scientific(neg, c, e).Text()| == 24 <==> neg && NumDigits(c) == 16 && e == -21
    ensures |Scientific(neg, c, e).Text()| <= 24
  {
    hide *;
    var d := DigitChars(c);
    ScientificCases(neg, c, e);
    DigitsOf(c);
    SignLength(neg);
    if e > 0 || |d| + e < -5 {
      ExponentialLength(neg, d, |d| + e - 1);
    } else {
      PointRoom(neg, d, |d| + e);
    }
  }

  lemma SpecialLength(lo: nat, hi: nat)
    requires lo < 0x1_0000_0000 && hi < 0x1_0000_0000 && IsSpecial(hi)
    ensures |TextOf(Denoted(lo, hi), false)| <= 23
  {
    var p, neg := Number(Words([lo, ContField(hi)]), 5), SignBit(hi) == 1;
    DenotedCases(lo, hi);
    NumberBound(Words([lo, ContField(hi)]), 5);
    assert IsSpecial(hi) <==> CombExp(CombField(hi)) == 3;
    hide *;
    SignLength(neg);
    DigitsAtMost(p, 15);
    WrittenAll(p);
    WrittenEmpty(p);
  }

  lemma SixteenDigits(lo: nat, hi: nat)
    requires hi < 0x1_0000_0000
    ensures NumDigits(Sixteen(CombMsd(CombField(hi)), Number(Words([lo, ContField(hi)]), 5))) <= 16
  {
    hide *;
    DenotedCases(lo, hi);
    NumberBound(Words([lo, ContField(hi)]), 5);
    Fifteen();
    Pow10Next(15);
    SixteenIs(CombMsd(CombField(hi)), Number(Words([lo, ContField(hi)]), 5));
    DigitsAtMost(Sixteen(CombMsd(CombField(hi)), Number(Words([lo, ContField(hi)]), 5)), 16);
  }

  lemma LengthCases(lo: nat, hi: nat)
    ensures var x := Denoted(lo, hi);
      && (!IsSpecial(hi) <==> x.Finite?) && (IsSpecial(hi) <==> CombExp(CombField(hi)) == 3)
      && (Longest(x) <==> x.Finite? && x.neg && NumDigits(x.coef) == 16 && x.exp == -21)
  {
    hide NumDigits, CombField, Number, Sixteen;
  }

  /** The 24 characters asked of the caller hold every text and its terminator but those of one kind of number. */
  lemma DocumentedLength(lo: nat, hi: nat)
    requires lo < 0x1_0000_0000 && hi < 0x1_0000_0000
    ensures |TextOf(Denoted(lo, hi), false)| < 24 <==> !Longest(Denoted(lo, hi))
    ensures |TextOf(Denoted(lo, hi), false)| < 25
  {
    hide *;
    var x := Denoted(lo, hi);
    LengthCases(lo, hi);
    if IsSpecial(hi) {
      SpecialLength(lo, hi);
    } else {
      DenotedCases(lo, hi);
      SixteenDigits(lo, hi);
      TextIsScientific(x);
      ScientificLength(x.neg, x.coef, x.exp);
    }
  }
}
