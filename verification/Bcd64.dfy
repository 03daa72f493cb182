/** The words of a decDouble: how decFinalize and decFloatFromBCD lay out digits, exponent and sign. */
module Bcd64 {
  import opened Powers
  import opened Digits
  import opened Formats
  import opened Dpd
  import opened DpdWords
  import opened Interchange64
  import opened Coefficients

  // ---- one declet from a string of digits ----

  /** Three digits of a coefficient, n threes from the right. */
  function Part(c: nat, n: nat): nat {
    c / Pow10(3 * n) % 1000
  }

  /** What is left of a string of digits when the lowest are cut off. */
  lemma CutOff(s: seq<nat>, k: nat)
    requires k <= |s| && AllDigits(s)
    ensures Dec(s) / Pow10(k) == Dec(s[..|s| - k])
  {
    var a, b := s[..|s| - k], s[|s| - k..];
    assert s == a + b;
    DecAppend(a, b);
    DecBound(b);
    hide Dec, Pow10;
    DivModUnique(Dec(s), Pow10(k), Dec(a), Dec(b));
  }

  lemma LastThree(s: seq<nat>)
    requires AllDigits(s) && |s| >= 3
    ensures Dec(s) % 1000 == 100 * s[|s| - 3] + 10 * s[|s| - 2] + s[|s| - 1]
  {
    var n := |s|;
    assert s[..n - 1][..n - 2] == s[..n - 2] && s[..n - 2][..n - 3] == s[..n - 3];
    assert Dec(s) == 10 * Dec(s[..n - 1]) + s[n - 1];
    assert Dec(s[..n - 1]) == 10 * Dec(s[..n - 2]) + s[n - 2];
    assert Dec(s[..n - 2]) == 10 * Dec(s[..n - 3]) + s[n - 3];
    hide Dec;
    DivModUnique(Dec(s), 1000, Dec(s[..n - 3]), 100 * s[n - 3] + 10 * s[n - 2] + s[n - 1]);
  }

  lemma FewerThanThree(s: seq<nat>)
    requires AllDigits(s) && |s| <= 2
    ensures Dec(s) % 1000 == Dec(s)
    ensures Dec(s) == if |s| == 0 then 0 else if |s| == 1 then s[0] else 10 * s[0] + s[1]
  {
    if |s| == 2 {
      assert Dec(s[..1]) == 10 * Dec(s[..1][..0]) + s[0];
    }
  }

  lemma PartOf(s: seq<nat>, n: nat)
    requires AllDigits(s) && s != []
    ensures Part(Dec(s), n) < 1000
    ensures Part(Dec(s), n) == if 3 * n <= |s| then Dec(s[..|s| - 3 * n]) % 1000 else 0
    ensures Dec([]) == 0
  {
    if 3 * n <= |s| {
      CutOff(s, 3 * n);
    } else {
      DecBound(s);
      Pow10Monotone(|s|, 3 * n);
      hide Dec, Pow10;
      DivModUnique(Dec(s), Pow10(3 * n), 0, Dec(s));
    }
  }

  /** The digits that make up a part, of which there may be fewer than three. */
  lemma PartDigits(s: seq<nat>, n: nat)
    requires AllDigits(s) && s != []
    ensures Part(Dec(s), n) < 1000 && Encode(Part(Dec(s), n)) < 1024
    ensures |s| <= 3 * n ==> Part(Dec(s), n) == 0
    ensures |s| == 3 * n + 1 ==> Part(Dec(s), n) == s[0]
    ensures |s| == 3 * n + 2 ==> Part(Dec(s), n) == 10 * s[0] + s[1]
    ensures |s| >= 3 * n + 3 ==>
      Part(Dec(s), n) == 100 * s[|s| - 3 * n - 3] + 10 * s[|s| - 3 * n - 2] + s[|s| - 3 * n - 1]
  {
    hide *;
    PartOf(s, n);
    DecodeEncode(Part(Dec(s), n));
    if 3 * n < |s| {
      var t := s[..|s| - 3 * n];
      assert s[0..|s|] == s;
      DigitsWithin(s, 0, |s|, 0, |t|);
      if |t| <= 2 {
        FewerThanThree(t);
      } else {
        LastThree(t);
      }
    } else if 3 * n == |s| {
      FewerThanThree([]);
      assert s[..0] == [] && Dec(s[..0]) == 0;
    }
  }

  /** One declet of the digits (getDPDt, and getDPDb where there are enough of them). */
  method GetDeclet(buf: array<nat>, umsd: nat, ulsd: nat, n: nat) returns (dpd: nat)
    requires umsd <= ulsd < buf.Length && AllDigits(buf[umsd..ulsd + 1])
    ensures dpd == Encode(Part(Dec(buf[umsd..ulsd + 1]), n)) && dpd < 1024
  {
    hide *;
    PartDigits(buf[umsd..ulsd + 1], n);
    EncodeZero();
    var ub := ulsd - 3 * n - 2;
    if ub < umsd - 2 {
      dpd := 0;
    } else if ub >= umsd {
      dpd := BinToDpd(100 * buf[ub] + 10 * buf[ub + 1] + buf[ub + 2]);
    } else {
      var bin := buf[ub + 2];
      if ub + 1 == umsd {
        bin := 10 * buf[ub + 1] + bin;
      }
      dpd := BinToDpd(bin);
    }
  }

  // ---- five declets ----

  /** The declets of the low digits of a coefficient. */
  ghost function LowDeclets(c: nat, n: nat): nat {
    if n == 0 then 0 else Encode(c % 1000) + 1024 * LowDeclets(c / 1000, n - 1)
  }

  lemma LowStep(c: nat, n: nat)
    requires n > 0
    ensures LowDeclets(c, n) == Encode(c % 1000) + 1024 * LowDeclets(c / 1000, n - 1)
  {
    hide Encode;
  }

  lemma LowNone(c: nat)
    ensures LowDeclets(c, 0) == 0
  {
  }

  /** They are canonical and stand for those digits. */
  lemma {:induction false} LowFacts(c: nat, n: nat)
    ensures LowDeclets(c, n) < Shifts(n) && CanonicalDeclets(LowDeclets(c, n), n)
    ensures Number(LowDeclets(c, n), n) == c % Pow10(3 * n)
  {
    hide *;
    CanonicalStep(LowDeclets(c, n), n);
    if n == 0 {
      LowNone(c);
      NothingThere(0);
      AtBottom(0);
      OneTimes(Pow10(0));
      assert c % 1 == 0;
    } else {
      LowFacts(c / 1000, n - 1);
      LowStep(c, n);
      DecodeEncode(c % 1000);
      PartsOf(Encode(c % 1000), LowDeclets(c / 1000, n - 1));
      NumberStep(LowDeclets(c, n), n);
      OneDecletUp(1, n);
      OneAsDigits(n);
      ThousandMod(c, Pow10(3 * (n - 1)));
    }
  }

  lemma ThousandMod(c: nat, p: nat)
    requires p > 0
    ensures c % (1000 * p) == c % 1000 + 1000 * (c / 1000 % p)
  {
    var h, low := c / 1000, c % 1000;
    var q, r := h / p, h % p;
    DivModFact(h, p);
    MulLe(r + 1, p, 1000);
    assert (q * p + r) * 1000 + low == q * (1000 * p) + (1000 * r + low);
    DivModUnique(c, 1000 * p, q, 1000 * r + low);
  }

  lemma NextPart(c: nat, n: nat)
    ensures Part(c / 1000, n) == Part(c, n + 1) && Part(c, 0) == c % 1000
  {
    var p := Pow10(3 * n);
    assert Pow10(0) == 1 && c / 1 == c;
    assert Pow10(3 * (n + 1)) == 1000 * p by {
      assert Pow10(3 * n + 1) == 10 * p && Pow10(3 * n + 2) == 100 * p;
    }
    hide Pow10;
    var q, r := c / 1000 / p, c / 1000 % p;
    DivModFact(c / 1000, p);
    MulLe(r + 1, p, 1000);
    assert (q * p + r) * 1000 + c % 1000 == q * (1000 * p) + (1000 * r + c % 1000);
    DivModUnique(c, 1000 * p, q, 1000 * r + c % 1000);
  }

  /** Five declets side by side. */
  lemma FiveDeclets(c: nat)
    ensures LowDeclets(c, 5) == Encode(Part(c, 0)) + 0x400 * Encode(Part(c, 1)) + 0x10_0000 * Encode(Part(c, 2))
      + 0x4000_0000 * Encode(Part(c, 3)) + 0x100_0000_0000 * Encode(Part(c, 4))
  {
    hide *;
    var c1, c2, c3, c4 := c / 1000, c / 1000 / 1000, c / 1000 / 1000 / 1000, c / 1000 / 1000 / 1000 / 1000;
    LowStep(c, 5);
    LowStep(c1, 4);
    LowStep(c2, 3);
    LowStep(c3, 2);
    LowStep(c4, 1);
    LowNone(c4 / 1000);
    NextPart(c, 0);
    NextPart(c, 1);
    NextPart(c, 2);
    NextPart(c, 3);
    NextPart(c1, 0);
    NextPart(c1, 1);
    NextPart(c1, 2);
    NextPart(c2, 0);
    NextPart(c2, 1);
    NextPart(c3, 0);
    NextPart(c4, 0);
  }

  // ---- the words ----

  /** The five declets fill a low word and a continuation, the fourth across both. */
  lemma Across(d0: nat, d1: nat, d2: nat, d3: nat, d4: nat)
    requires d0 < 1024 && d1 < 1024 && d2 < 1024 && d3 < 1024 && d4 < 1024
    ensures var lo, cont := d3 * 0x4000_0000 % 0x1_0000_0000 + 0x10_0000 * d2 + 0x400 * d1 + d0, 0x100 * d4 + d3 / 4;
      && lo < 0x1_0000_0000 && cont < 0x4_0000
      && Words([lo, cont]) == d0 + 0x400 * d1 + 0x10_0000 * d2 + 0x4000_0000 * d3 + 0x100_0000_0000 * d4
  {
    assert d3 == 4 * (d3 / 4) + d3 % 4;
    DivModUnique(d3 * 0x4000_0000, 0x1_0000_0000, d3 / 4, d3 % 4 * 0x4000_0000);
    WordsOfTwo(d3 * 0x4000_0000 % 0x1_0000_0000 + 0x10_0000 * d2 + 0x400 * d1 + d0, 0x100 * d4 + d3 / 4);
  }

  /** Five declets into a low word and a continuation. */
  method PlaceDeclets(buf: array<nat>, umsd: nat, ulsd: nat) returns (lo: nat, cont: nat)
    requires umsd <= ulsd < buf.Length && AllDigits(buf[umsd..ulsd + 1])
    ensures lo < 0x1_0000_0000 && cont < 0x4_0000 && Words([lo, cont]) == LowDeclets(Dec(buf[umsd..ulsd + 1]), 5)
  {
    hide *;
    var d4 := GetDeclet(buf, umsd, ulsd, 4);
    var d3 := GetDeclet(buf, umsd, ulsd, 3);
    var d2 := GetDeclet(buf, umsd, ulsd, 2);
    var d1 := GetDeclet(buf, umsd, ulsd, 1);
    var d0 := GetDeclet(buf, umsd, ulsd, 0);
    Across(d0, d1, d2, d3, d4);
    FiveDeclets(Dec(buf[umsd..ulsd + 1]));
    cont := 0x100 * d4 + d3 / 4;
    lo := d3 * 0x4000_0000 % 0x1_0000_0000 + 0x10_0000 * d2 + 0x400 * d1 + d0;
  }

  lemma BiasedExponent(exponent: int)
    requires DOUBLE.Qtiny() <= exponent <= DOUBLE.Qmax()
    ensures 0 <= exponent + 398 <= 767
  {
  }

  /** The end of decFinalize for a finite decDouble: sign, exponent and digits become two words. */
  method StoreDouble(neg: bool, exponent: int, buf: array<nat>, umsd: nat, ulsd: nat) returns (lo: nat, hi: nat)
    requires umsd <= ulsd < buf.Length && ulsd + 1 - umsd <= 16 && AllDigits(buf[umsd..ulsd + 1])
    requires DOUBLE.Qtiny() <= exponent <= DOUBLE.Qmax()
    ensures lo < 0x1_0000_0000 && hi < 0x1_0000_0000 && Canonical64(lo, hi)
    ensures Denoted(lo, hi) == Finite(neg, Dec(buf[umsd..ulsd + 1]), exponent)
  {
    hide *;
    BiasedExponent(exponent);
    var uexp: nat := exponent + 398;
    var msd := if ulsd + 1 - umsd == 16 then buf[umsd] else 0;
    TopDigit(buf[umsd..ulsd + 1], msd);
    var cont;
    lo, cont := PlaceDeclets(buf, umsd, ulsd);
    var sign := if neg then 1 else 0;
    CombFields(uexp, msd);
    HighFields(sign, Comb(uexp, msd), uexp % 256, cont);
    hi := HighWord(sign, Comb(uexp, msd), uexp % 256, cont);
    LowFacts(Dec(buf[umsd..ulsd + 1]), 5);
    Denotes(neg, uexp, msd, lo, hi, Dec(buf[umsd..ulsd + 1]));
  }

  /** The sixteenth digit is what lies above the fifteen of the declets. */
  lemma TopDigit(s: seq<nat>, msd: nat)
    requires AllDigits(s) && 0 < |s| <= 16 && msd == if |s| == 16 then s[0] else 0
    ensures msd <= 9 && Dec(s) == Sixteen(msd, Dec(s) % Pow10(15))
  {
    if |s| == 16 {
      assert s == s[..1] + s[1..] && s[..1] == [s[0]];
      DecAppend(s[..1], s[1..]);
      DecOne(s[0]);
      DecBound(s[1..]);
      Fifteen();
      hide Dec, Pow10;
      DivModUnique(Dec(s), Pow10(15), msd, Dec(s[1..]));
    } else {
      DecBound(s);
      Pow10Monotone(|s|, 15);
      hide Dec, Pow10;
      DivModUnique(Dec(s), Pow10(15), 0, Dec(s));
    }
  }

  lemma Denotes(neg: bool, uexp: nat, msd: nat, lo: nat, hi: nat, c: nat)
    requires uexp <= 767 && msd <= 9
    requires SignBit(hi) == (if neg then 1 else 0) && CombField(hi) == Comb(uexp, msd) && ExpField(hi) == uexp % 256
    requires Words([lo, ContField(hi)]) == LowDeclets(c, 5) && CanonicalDeclets(LowDeclets(c, 5), 5)
    requires Number(LowDeclets(c, 5), 5) == c % Pow10(15) && c == Sixteen(msd, c % Pow10(15))
    ensures Canonical64(lo, hi) && Denoted(lo, hi) == Finite(neg, c, uexp - 398)
  {
    hide Pow10, Number, Words, Comb, CombField, ExpField, ContField, SignBit, CombMsd, CombExp, CanonicalDeclets, LowDeclets;
    CombFields(uexp, msd);
  }

  // ---- special values, and any datum ----

  /** A special value: its code in the place of combination field and exponent, and the declets of its payload. */
  method StoreSpecial(neg: bool, infinite: bool, signaling: bool, buf: array<nat>, umsd: nat, ulsd: nat) returns (lo: nat, hi: nat)
    requires umsd <= ulsd < buf.Length && AllDigits(buf[umsd..ulsd + 1])
    requires infinite ==> !signaling && Dec(buf[umsd..ulsd + 1]) == 0
    ensures lo < 0x1_0000_0000 && hi < 0x1_0000_0000 && Canonical64(lo, hi)
    ensures Denoted(lo, hi) == if infinite then Infinite(neg) else NaN(neg, signaling, Dec(buf[umsd..ulsd + 1]) % Pow10(15))
  {
    hide *;
    var cont;
    lo, cont := PlaceDeclets(buf, umsd, ulsd);
    LowFacts(Dec(buf[umsd..ulsd + 1]), 5);
    ZeroDeclets(lo, cont, Dec(buf[umsd..ulsd + 1]));
    var sign, comb, low := if neg then 1 else 0, if infinite then 30 else 31, if signaling then 128 else 0;
    HighFields(sign, comb, low, cont);
    hi := HighWord(sign, comb, low, cont);
    AssembledSpecial(neg, low, lo, hi);
  }

  /** A zero has no bits. */
  lemma ZeroDeclets(lo: nat, cont: nat, c: nat)
    requires lo < 0x1_0000_0000 && cont < 0x4_0000 && Words([lo, cont]) == LowDeclets(c, 5)
    ensures c == 0 ==> lo == 0 && cont == 0
  {
    hide *;
    WordsOfTwo(lo, cont);
    if c == 0 {
      FiveDeclets(0);
      ZeroParts();
      EncodeZero();
    }
  }

  lemma ZeroParts()
    ensures Part(0, 0) == 0 && Part(0, 1) == 0 && Part(0, 2) == 0 && Part(0, 3) == 0 && Part(0, 4) == 0
  {
    hide Pow10;
  }

  /** The words of any datum of the format. */
  method EncodeDouble(x: DecFloat) returns (lo: nat, hi: nat)
    requires x.Fits(DOUBLE)
    ensures lo < 0x1_0000_0000 && hi < 0x1_0000_0000 && Canonical64(lo, hi) && Denoted(lo, hi) == x
  {
    hide *;
    FitsDouble(x);
    var buf := new nat[16];
    var coef := if x.Finite? then x.coef else if x.NaN? then x.payload else 0;
    GetCoeff(coef, 16, buf, 0);
    if x.Finite? {
      lo, hi := StoreDouble(x.neg, x.exp, buf, 0, 15);
    } else {
      lo, hi := StoreSpecial(x.neg, x.Infinite?, x.NaN? && x.signaling, buf, 0, 15);
    }
  }

  lemma FitsDouble(x: DecFloat)
    requires x.Fits(DOUBLE)
    ensures x.Finite? ==> x.coef < Pow10(16) && DOUBLE.Qtiny() <= x.exp <= DOUBLE.Qmax()
    ensures x.NaN? ==> x.payload < Pow10(16) && x.payload % Pow10(15) == x.payload
    ensures 0 < Pow10(16)
  {
    hide Pow10;
    Pow10Grows(15, 16);
    if x.NaN? {
      Below(x.payload, Pow10(15));
    }
  }

  lemma Below(n: nat, p: nat)
    requires n < p
    ensures n % p == n
  {
    DivModUnique(n, p, 0, n);
  }
}
