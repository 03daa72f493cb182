/** decFloatFromString: the number a text denotes, rounded once. */
module FromString {
  import opened Powers
  import opened Digits
  import opened Formats
  import opened Rounding
  import opened Specials
  import opened Finalize
  import opened FarExponents
  import opened Numerals
  import opened Scanning
  import opened LongText

  /** The relation between a format's exponents that the interchange formats have. */
  predicate Textual(f: Format) {
    f.Valid() && f.emin == 1 - f.emax && f.emax <= 9999 && f.pmax <= 99
  }

  /** The digits a coefficient may have to be converted in the buffer as it stands. */
  function BufferLength(f: Format): nat {
    (f.pmax + 9 + 11 + 7) / 8 * 8
  }

  function Room(f: Format): nat {
    BufferLength(f) - 3
  }

  /** Too long for the buffer, nothing but zeros, and a dot at the end: stripping leaves no digit at all. */
  predicate Emptied(f: Format, n: Numeral) {
    n.dot && n.frac == "" && Zeros(n.whole) && |n.whole| > Room(f)
  }

  ghost predicate EmptiedText(f: Format, s: string) {
    exists n: Numeral :: n.Denotes(s) && Emptied(f, n)
  }

  // ---- coefficients ----

  /** The digits at the start of a buffer, as a number. */
  method NumberIn(buf: array<nat>, ub: nat, neg: bool, exponent: int, ghost v: seq<nat>) returns (num: BcdNum)
    requires 0 < ub <= buf.Length && buf[..ub] == v && AllDigits(v) && exponent < MIN_SPECIAL
    ensures fresh(num) && num.buf == buf && num.Valid() && num.neg == neg && num.exponent == exponent && num.Coefficient() == Dec(v)
  {
    assert buf[0..ub] == buf[..ub];
    num := new BcdNum(buf, 0, ub - 1, neg, exponent);
  }

  /** A coefficient that fits the buffer. */
  method ReadShort(f: Format, s: string, first: nat, c: nat, dot: int, neg: bool, exp: int, set_: Context) returns (r: DecFloat)
    requires f.Valid() && exp < MIN_SPECIAL && Mantissa(s, first, c, dot) && 0 < |Body(s, first, c, dot)| <= Room(f)
    modifies set_`status
    ensures Rounded(f, set_.round, ExactOf(f, neg, Number(Body(s, first, c, dot)), 1, exp), r, old(set_.status), set_.status)
  {
    var buf := new nat[BufferLength(f)];
    CopyDigits(s, first, c, dot, buf);
    var digits := |Body(s, first, c, dot)|;
    hide Dec, Body, Rounded, ExactOf;
    var num := NumberIn(buf, digits, neg, exp, Values(Body(s, first, c, dot)));
    r := DecFinalize(f, num, set_);
  }

  /** What is left of a long coefficient, as a number to be rounded. */
  method CutText(f: Format, s: string, cfirst: nat, c: nat, dot: int, neg: bool, exp: int)
    returns (num: BcdNum, at: nat)
    requires f.Valid() && cfirst < c <= |s| && (cfirst <= dot < c ==> s[dot] == '.') && Body(s, cfirst, c, dot) != ""
    requires forall k :: cfirst <= k < c && k != dot ==> IsDigit(s[k])
    requires exp + |s| < MIN_SPECIAL
    ensures fresh(num) && fresh(num.buf) && num.Valid() && num.neg == neg && cfirst <= at <= c && num.exponent < MIN_SPECIAL
    ensures Body(s, cfirst, at, dot) != "" && (at < c ==> |Body(s, cfirst, at, dot)| > f.pmax)
    ensures num.exponent == exp + |Body(s, at, c, dot)|
    ensures num.Coefficient() == Dec(Kept(Values(Body(s, cfirst, at, dot)), !Zeros(Body(s, at, c, dot))))
  {
    hide *;
    var buf := new nat[BufferLength(f)];
    var ub;
    BufferFits(f);
    ub, at := CopyUpTo(f, s, cfirst, c, dot, buf);
    CutBegins(f, s, cfirst, at, c, dot);
    ghost var v := Values(Body(s, cfirst, at, dot));
    var sticky := NonZeroLeft(s, at, c, dot);
    if sticky {
      buf[ub - 1] := StickyDigit(buf[ub - 1]);
    }
    KeptDigits(v, sticky);
    num := NumberIn(buf, ub, neg, exp + (|Body(s, cfirst, c, dot)| - ub), Kept(v, sticky));
  }

  lemma BufferFits(f: Format)
    ensures f.pmax + 4 <= BufferLength(f)
  {
  }

  lemma CutBegins(f: Format, s: string, i: nat, at: nat, c: nat, dot: int)
    requires i <= at <= c <= |s| && Body(s, i, c, dot) != "" && (at < c ==> |Body(s, i, at, dot)| > f.pmax)
    ensures |Body(s, i, c, dot)| == |Body(s, i, at, dot)| + |Body(s, at, c, dot)|
    ensures |Body(s, i, at, dot)| > 0 && |Body(s, at, c, dot)| <= |s|
  {
    BodySplit(s, i, at, c, dot);
  }

  lemma KeptDigits(v: seq<nat>, sticky: bool)
    requires v != [] && AllDigits(v)
    ensures AllDigits(Kept(v, sticky))
    ensures Kept(v, sticky) == if sticky then v[|v| - 1 := StickyDigit(v[|v| - 1])] else v
  {
  }

  /** A coefficient too long for the buffer. When no digit is left the source points before the start of the buffer,
      and what it returns from there on is not determined. */
  method ReadLong(f: Format, s: string, first: nat, c: nat, dot: int, neg: bool, exp: int, set_: Context) returns (r: DecFloat)
    requires f.Valid() && exp + |s| < MIN_SPECIAL && Mantissa(s, first, c, dot) && |Body(s, first, c, dot)| > Room(f)
    modifies set_`status
    ensures !(s[c - 1] == '.' && Zeros(Body(s, first, c, dot))) ==>
      Rounded(f, set_.round, ExactOf(f, neg, Number(Body(s, first, c, dot)), 1, exp), r, old(set_.status), set_.status)
  {
    hide Dec, Body, Rounded, ExactOf, Values, Kept, Number, Zeros;
    ghost var m, s0 := set_.round, set_.status;
    BodyEmpty(s, first, dot);
    var cfirst, digits := StripZeros(s, first, c, dot);
    if digits == 0 {
      set_.status := *;
      r := *;
      return;
    }
    var num, at := CutText(f, s, cfirst, c, dot, neg, exp);
    ghost var coef, e := num.Coefficient(), num.exponent;
    r := DecFinalize(f, num, set_);
    CutTextRounds(f, m, neg, s, cfirst, at, c, dot, exp, coef, e, r, s0, set_.status);
  }

  lemma CutTextRounds(f: Format, m: Mode, neg: bool, s: string, i: nat, at: nat, c: nat, dot: int, exp: int,
                      coef: nat, e: int, r: DecFloat, s0: set<Flag>, s1: set<Flag>)
    requires f.Valid() && i <= at <= c <= |s| && i < c && (i <= dot < c ==> s[dot] == '.')
    requires forall k :: i <= k < c && k != dot ==> IsDigit(s[k])
    requires i == c - 1 || (IsDigit(s[i]) && s[i] != '0')
    requires Body(s, i, at, dot) != "" && (at < c ==> |Body(s, i, at, dot)| > f.pmax)
    requires coef == Dec(Kept(Values(Body(s, i, at, dot)), !Zeros(Body(s, at, c, dot)))) && e == exp + |Body(s, at, c, dot)|
    requires Rounded(f, m, ExactOf(f, neg, coef, 1, e), r, s0, s1)
    ensures Rounded(f, m, ExactOf(f, neg, Number(Body(s, i, c, dot)), 1, exp), r, s0, s1)
  {
    hide *;
    var v, tail := Values(Body(s, i, at, dot)), Values(Body(s, at, c, dot));
    CutTextParts(s, i, at, c, dot);
    if at < c {
      CutRounds(f, m, neg, v, tail, exp, r, s0, s1);
    } else {
      NothingCut(v, tail);
    }
  }

  lemma CutTextParts(s: string, i: nat, at: nat, c: nat, dot: int)
    requires i <= at <= c <= |s| && i < c && (i <= dot < c ==> s[dot] == '.')
    requires forall k :: i <= k < c && k != dot ==> IsDigit(s[k])
    requires i == c - 1 || (IsDigit(s[i]) && s[i] != '0')
    requires Body(s, i, at, dot) != ""
    ensures var v, tail := Values(Body(s, i, at, dot)), Values(Body(s, at, c, dot));
      && Number(Body(s, i, c, dot)) == Dec(v + tail) && (Dec(tail) == 0 <==> Zeros(Body(s, at, c, dot)))
      && (at == c ==> tail == []) && (at < c ==> v[0] != 0)
  {
    BodySplit(s, i, at, c, dot);
    ValuesJoin(Body(s, i, at, dot), Body(s, at, c, dot));
    TailDigits(s, at, c, dot);
    NumberIsZero(Body(s, at, c, dot));
    BodyEmpty(s, c, dot);
    hide Body, Dec, Zeros;
    if at < c {
      FirstKept(s, i, at, c, dot);
    }
  }

  lemma FirstKept(s: string, i: nat, at: nat, c: nat, dot: int)
    requires i <= at < c <= |s| && (i <= dot < c ==> s[dot] == '.') && (i == c - 1 || (IsDigit(s[i]) && s[i] != '0'))
    requires Body(s, i, at, dot) != ""
    ensures Values(Body(s, i, at, dot))[0] != 0
  {
    BodyEmpty(s, i, dot);
    BodyCons(s, i, at, dot);
    hide Body;
    assert Body(s, i, at, dot)[0] == s[i];
  }

  lemma NothingCut(v: seq<nat>, tail: seq<nat>)
    requires tail == [] && v != []
    ensures Dec(tail) == 0 && Kept(v, false) == v + tail
  {
  }

  lemma ValuesJoin(a: string, b: string)
    ensures Values(a + b) == Values(a) + Values(b)
  {
  }

  lemma TailDigits(s: string, at: nat, c: nat, dot: int)
    requires at <= c <= |s|
    requires forall k :: at <= k < c && k != dot ==> IsDigit(s[k])
    ensures DigitString(Body(s, at, c, dot))
  {
  }

  // ---- exponents ----

  /** The digits that fit the buffer, and the exponent digits read as they are, in the three formats. */
  lemma LimitsOfFormats()
    ensures Room(SINGLE) == 29 && Room(DOUBLE) == 37 && Room(QUAD) == 53
    ensures EmaxD(SINGLE) == 3 && EmaxD(DOUBLE) == 3 && EmaxD(QUAD) == 4
  {
  }

  /** The exponent of the last digit as the code reads it. */
  function ExpRead(f: Format, n: Numeral): int
    requires n.Proper()
  {
    (if n.exponent == "" then 0 else ExponentRead(f, n.exponent)) - |n.frac|
  }

  /** One with no more significant digits than the exponents of the format is read as it is written, a longer one as
      twice emax with its sign. */
  lemma ExponentAsRead(f: Format, n: Numeral)
    requires n.Proper() && f in {SINGLE, DOUBLE, QUAD}
    ensures n.exponent == "" ==> ExpRead(f, n) == 0 - |n.frac|
    ensures n.exponent != "" ==>
      |n.exponent| >= 2 &&
      var d := if n.exponent[1] == '+' || n.exponent[1] == '-' then n.exponent[2..] else n.exponent[1..];
      var e := if |Significant(d)| <= (if f == QUAD then 4 else 3) then Number(d) else if f == SINGLE then 192 else if f == DOUBLE then 768 else 12288;
      ExpRead(f, n) == (if n.exponent[1] == '-' then 0 - e else e) - |n.frac|
  {
    LimitsOfFormats();
    hide Significant, Number, EmaxD;
  }

  /** The exponent is read as written, or the coefficient is too short to matter beside it. */
  predicate Accurate(f: Format, n: Numeral)
    requires n.Proper()
  {
    || n.exponent == "" || |Significant(ExponentDigits(n.exponent))| <= EmaxD(f)
    || |n.whole + n.frac| + f.emax + f.pmax + 1 <= Min(2 * f.emax, Pow10(EmaxD(f)))
  }

  /** Whatever fits the buffer is short enough. */
  lemma BufferedAccurate(f: Format, n: Numeral)
    requires f in {SINGLE, DOUBLE, QUAD} && n.Proper() && |n.whole + n.frac| <= Room(f)
    ensures Textual(f) && Accurate(f, n)
  {
    assert Pow10(2) == 100 && Pow10(3) == 1000 && Pow10(4) == 10000;
    NumDigitsUnique(101, 3);
    NumDigitsUnique(398, 3);
    NumDigitsUnique(6176, 4);
    hide Pow10, NumDigits, Significant, ExponentText;
  }

  /** More significant digits make a greater number. */
  lemma LongNumber(d: string, k: nat)
    requires DigitString(d) && |Significant(d)| > k
    ensures Number(d) >= Pow10(k)
  {
    var t := Significant(d);
    SignificantPart(d);
    NumberSignificant(d);
    assert forall i :: 0 <= i < |t| ==> t[i] == d[|d| - |t| + i];
    assert Values(t)[0] == DigitOf(t[0]) != 0;
    hide Dec, Pow10;
    DecLength(Values(t));
    Pow10Monotone(k, |t| - 1);
  }

  /** A long exponent replaced by twice emax is as far out of range as the one written. */
  lemma BothOut(f: Format, n: Numeral, len: nat)
    requires Textual(f) && n.Proper() && Accurate(f, n) && n.exponent != "" && len == |n.whole + n.frac|
    requires |Significant(ExponentDigits(n.exponent))| > EmaxD(f)
    ensures (n.Exp() > f.emax && ExpRead(f, n) > f.emax) || (n.Exp() + len < f.Qtiny() && ExpRead(f, n) + len < f.Qtiny())
  {
    LongNumber(ExponentDigits(n.exponent), EmaxD(f));
    hide Number, Significant, Pow10, EmaxD, DigitString;
  }

  /** Such numerals are among those read with an exponent that makes no difference. */
  lemma AccurateEnough(f: Format, n: Numeral)
    requires Textual(f) && n.Proper() && Accurate(f, n)
    ensures Interchangeable(f, n.Coefficient(), n.Exp(), ExpRead(f, n))
  {
    hide Dec, Significant, EmaxD, DigitString, Interchangeable;
    if n.exponent != "" && |Significant(ExponentDigits(n.exponent))| > EmaxD(f) {
      BothOut(f, n, |n.whole + n.frac|);
      DecBound(Values(n.whole + n.frac));
      FarOut(f, n.Coefficient(), |n.whole + n.frac|, n.Exp(), ExpRead(f, n));
    } else {
      SameExponent(f, n.Coefficient(), n.Exp());
    }
  }

  lemma SameExponent(f: Format, c: nat, e: int)
    ensures Interchangeable(f, c, e, e)
  {
  }

  lemma FarOut(f: Format, c: nat, len: nat, e: int, e': int)
    requires f.Valid() && c < Pow10(len)
    requires (e > f.emax && e' > f.emax) || (e + len < f.Qtiny() && e' + len < f.Qtiny())
    ensures Interchangeable(f, c, e, e')
  {
    assert Pow10(len + 1) == 10 * Pow10(len);
    hide Pow10, NumDigits;
    if e <= f.emax {
      Pow10Monotone(len + 1, f.Qtiny() - e);
      Pow10Monotone(len + 1, f.Qtiny() - e');
    }
  }

  /** A numeral whose exponent is read as one that makes no difference is rounded as it is written. */
  lemma ReadRounds(f: Format, m: Mode, n: Numeral, r: DecFloat, s0: set<Flag>, s1: set<Flag>)
    requires Textual(f) && n.Proper() && Interchangeable(f, n.Coefficient(), n.Exp(), ExpRead(f, n))
    requires Rounded(f, m, ExactOf(f, n.Neg(), n.Coefficient(), 1, ExpRead(f, n)), r, s0, s1)
    ensures Rounded(f, m, ExactOf(f, n.Neg(), n.Coefficient(), 1, n.Exp()), r, s0, s1)
  {
    hide *;
    ValidFormat(f);
    Alike(f, m, n.Neg(), n.Coefficient(), n.Exp(), ExpRead(f, n), r, s0, s1);
  }

  lemma ValidFormat(f: Format)
    requires Textual(f)
    ensures f.Valid()
  {
  }

  /** That is exactly when the parser is correctly rounded in every mode: the condition compares the
      exponent as read with the one written, and can be told from the text. */
  lemma ReadRightly(f: Format, n: Numeral)
    requires Textual(f) && n.Proper()
    ensures RoundAlike(f, n.Neg(), n.Coefficient(), n.Exp(), ExpRead(f, n)) <==>
      Interchangeable(f, n.Coefficient(), n.Exp(), ExpRead(f, n))
  {
    hide *;
    ValidFormat(f);
    AlikeIffInterchangeable(f, n.Neg(), n.Coefficient(), n.Exp(), ExpRead(f, n));
  }

  // ---- infinities and NaNs ----

  /** Whether the rest of the string matches, each character in one case or the other (decBiStr). */
  method DecBiStr(s: string, p: nat, lower: string, upper: string) returns (same: bool)
    requires p <= |s| && |lower| == |upper|
    ensures same <==> Caseless(s[p..], lower, upper)
  {
    ghost var t := s[p..];
    var i := 0;
    while p + i < |s|
      invariant p + i <= |s| && i <= |lower| && forall k :: 0 <= k < i ==> t[k] == lower[k] || t[k] == upper[k]
    {
      assert t[i] == s[p + i];
      if i == |lower| || (s[p + i] != lower[i] && s[p + i] != upper[i]) {
        return false;
      }
      i := i + 1;
    }
    same := i == |lower|;
  }

  /** Copies digits to the end of the string, unless there are too many or something else comes first. */
  method CopyPayload(f: Format, s: string, first: nat, buf: array<nat>) returns (ok: bool, digits: nat)
    requires f.Valid() && first < |s| && f.pmax <= buf.Length
    modifies buf
    ensures ok <==> DigitString(s[first..]) && |s| - first <= f.pmax - 1
    ensures ok ==> digits == |s| - first && buf[..digits] == Values(s[first..])
  {
    var c := first;
    ghost var t := s[first..];
    while c < |s| && IsDigit(s[c]) && c - first != f.pmax - 1
      invariant first <= c <= |s| && c - first <= f.pmax - 1
      invariant forall k :: 0 <= k < c - first ==> IsDigit(t[k]) && buf[k] == DigitOf(t[k])
    {
      assert t[c - first] == s[c];
      buf[c - first] := DigitOf(s[c]);
      c := c + 1;
    }
    ok, digits := c == |s|, c - first;
    if !ok && c - first != f.pmax - 1 {
      assert !IsDigit(t[c - first]);
    }
  }

  lemma NoPayload(t: string)
    requires Significant(t) == ""
    ensures DigitString(t) && Number(t) == Dec([0])
  {
    SignificantPart(t);
    NumberSignificant(t);
    assert Values("") == [] && Dec([0]) == 0;
  }

  /** Leading zeros are digits. */
  lemma DigitsAfterZeros(t: string, z: nat)
    requires z <= |t| && Significant(t) == t[z..]
    ensures DigitString(t) <==> DigitString(t[z..])
  {
    SignificantPart(t);
    hide Significant;
    if DigitString(t[z..]) {
      forall i | 0 <= i < |t|
        ensures IsDigit(t[i])
      {
        if i >= z { assert t[i] == t[z..][i - z]; }
      }
    }
  }

  /** The payload at s[p..]: digits to the end, not too many of them once leading zeros are gone. */
  method ReadPayload(f: Format, s: string, p: nat, buf: array<nat>) returns (ok: bool, digits: nat)
    requires f.Valid() && p <= |s| && 0 < f.pmax <= buf.Length && buf[0] == 0
    modifies buf
    ensures ok <==> DigitString(s[p..]) && |Significant(s[p..])| <= f.pmax - 1
    ensures ok ==> 0 < digits <= buf.Length && AllDigits(buf[..digits]) && Dec(buf[..digits]) == Number(s[p..]) < Pow10(f.pmax - 1)
  {
    hide *;
    var first := SkipZeroChars(s, p);
    PayloadAt(f, s, p, first);
    if first == |s| {
      assert buf[..1] == [0];
      return true, 1;
    }
    ok, digits := CopyPayload(f, s, first, buf);
  }

  lemma PayloadAt(f: Format, s: string, p: nat, first: nat)
    requires f.Valid() && p <= first <= |s| && (forall k :: p <= k < first ==> s[k] == '0') && (first == |s| || s[first] != '0')
    ensures DigitString(s[p..]) <==> DigitString(s[first..])
    ensures |Significant(s[p..])| == |s| - first && Number(s[p..]) == Dec(Values(s[first..]))
    ensures |s| - first <= f.pmax - 1 ==> Dec(Values(s[first..])) < Pow10(f.pmax - 1)
    ensures first == |s| ==> DigitString(s[p..]) && AllDigits([0]) && Dec([0]) == Number(s[p..])
  {
    var t := s[p..];
    TailOfTail(s, p, first);
    SkippedZeros(t, first - p);
    NumberSignificant(t);
    DigitsAfterZeros(t, first - p);
    DecBound(Values(s[first..]));
    hide Dec, DigitString, Pow10, Significant;
    if |s| - first <= f.pmax - 1 {
      Pow10Monotone(|s| - first, f.pmax - 1);
    }
    if first == |s| {
      NoPayload(t);
    }
  }

  datatype Special = BadSyntax | InfinityRead | NaNRead(signaling: bool, digits: nat)

  predicate IsOneOf(s: string, i: nat, a: char, b: char) {
    i < |s| && (s[i] == a || s[i] == b)
  }

  lemma InfinityAt(s: string, first: nat)
    requires first <= |s| && Unsigned(s) == s[first..]
    ensures InfinityText(s) <==> Caseless(s[first..], "infinity", "INFINITY") || Caseless(s[first..], "inf", "INF")
    ensures first == |s| ==> !InfinityText(s)
  {
  }

  predicate NaNLetters(s: string, p: nat) {
    IsOneOf(s, p, 'n', 'N') && IsOneOf(s, p + 1, 'a', 'A') && IsOneOf(s, p + 2, 'n', 'N')
  }

  /** Where the letters of a NaN and its payload are. */
  lemma NaNAt(s: string, first: nat, p: nat, digits: int)
    requires first <= |s| && Unsigned(s) == s[first..]
    requires p == if IsOneOf(s, first, 's', 'S') then first + 1 else first
    ensures SignalingText(s) == IsOneOf(s, first, 's', 'S')
    ensures NaNText(s, digits) <==> NaNLetters(s, p) && DigitString(s[p + 3..]) && |Significant(s[p + 3..])| <= digits
    ensures NaNText(s, digits) ==> Payload(s) == Number(s[p + 3..])
  {
    NaNWordAt(s, first, p);
    if |s| - p >= 3 {
      ThreeLetters(s[p..]);
      assert s[p..][0] == s[p] && s[p..][1] == s[p + 1] && s[p..][2] == s[p + 2];
      TailOfTail(s, p, p + 3);
    }
    hide Significant, Number, Caseless, NaNWord, DigitString, Unsigned;
  }

  lemma NaNWordAt(s: string, first: nat, p: nat)
    requires first <= |s| && Unsigned(s) == s[first..]
    requires p == if IsOneOf(s, first, 's', 'S') then first + 1 else first
    ensures SignalingText(s) == IsOneOf(s, first, 's', 'S') && p <= |s| && NaNWord(s) == s[p..]
  {
    assert first < |s| ==> s[first..][0] == s[first];
    if p > first {
      TailOfTail(s, first, p);
    }
  }

  lemma ThreeLetters(t: string)
    requires |t| >= 3
    ensures Caseless(t[..3], "nan", "NAN") <==> NaNLetters(t, 0)
  {
    var u := t[..3];
    assert u[0] == t[0] && u[1] == t[1] && u[2] == t[2];
  }

  /** What is not a number: an infinity, or a NaN whose payload goes to the buffer. */
  method ReadSpecial(f: Format, s: string, first: nat, buf: array<nat>) returns (x: Special)
    requires f.Valid() && first <= |s| && Unsigned(s) == s[first..] && 0 < f.pmax <= buf.Length && buf[0] == 0
    modifies buf
    ensures x.InfinityRead? <==> InfinityText(s)
    ensures x.NaNRead? <==> !InfinityText(s) && NaNText(s, f.pmax - 1)
    ensures x.NaNRead? ==> (x.signaling == SignalingText(s) && 0 < x.digits <= buf.Length
      && AllDigits(buf[..x.digits]) && Dec(buf[..x.digits]) == Payload(s) < Pow10(f.pmax - 1))
  {
    hide Dec, Significant, Number, Pow10, Caseless, NaNText, InfinityText, DigitString, SignalingText, NaNWord, Unsigned, AllDigits;
    InfinityAt(s, first);
    var p := if IsOneOf(s, first, 's', 'S') then first + 1 else first;
    NaNAt(s, first, p, f.pmax - 1);
    if first == |s| {
      return BadSyntax;
    }
    var inf := DecBiStr(s, first, "infinity", "INFINITY");
    if !inf {
      inf := DecBiStr(s, first, "inf", "INF");
    }
    if inf {
      return InfinityRead;
    }
    if !IsOneOf(s, p, 'n', 'N') || !IsOneOf(s, p + 1, 'a', 'A') || !IsOneOf(s, p + 2, 'n', 'N') {
      return BadSyntax;
    }
    var ok, digits := ReadPayload(f, s, p + 3, buf);
    x := if ok then NaNRead(p > first, digits) else BadSyntax;
  }

  // ---- the conversion ----

  ghost predicate IsNumber(s: string) {
    exists n: Numeral :: n.Denotes(s)
  }

  /** What a text becomes: the number it denotes, rounded once; an infinity; a NaN; or, for anything
      else, the default NaN with the conversion-syntax flag. */
  ghost predicate Converted(f: Format, m: Mode, s: string, r: DecFloat, s0: set<Flag>, s1: set<Flag>)
    requires f.Valid()
  {
    && (forall n: Numeral :: n.Denotes(s) ==>
          Rounded(f, m, ExactOf(f, n.Neg(), n.Coefficient(), 1, ExpRead(f, n)), r, s0, s1))
    && (InfinityText(s) ==> r == Infinite(Negative(s)) && s1 == s0)
    && (NaNText(s, f.pmax - 1) ==> r == NaN(Negative(s), SignalingText(s), Payload(s)) && s1 == s0)
    && (!IsNumber(s) && !InfinityText(s) && !NaNText(s, f.pmax - 1) ==> r == DEFAULT_NAN && s1 == s0 + {ConversionSyntax})
  }

  lemma MantissaStart(s: string, first: nat, c: nat, dot: int)
    requires Mantissa(s, first, c, dot) && c > first
    ensures Unsigned(s) != "" && (IsDigit(Unsigned(s)[0]) || Unsigned(s)[0] == '.')
  {
  }

  /** A word that starts with a digit or a dot names no infinity and no NaN. */
  lemma WordNotSpecial(t: string)
    requires t != "" && (IsDigit(t[0]) || t[0] == '.')
    ensures !Caseless(t, "infinity", "INFINITY") && !Caseless(t, "inf", "INF") && t[0] != 's' && t[0] != 'S'
    ensures |t| >= 3 ==> !Caseless(t[..3], "nan", "NAN")
  {
    if |t| >= 3 { assert t[..3][0] == t[0]; }
  }

  /** A number is neither an infinity nor a NaN. */
  lemma NumberNotSpecial(s: string, n: Numeral, digits: int)
    requires n.Denotes(s)
    ensures !InfinityText(s) && !NaNText(s, digits)
  {
    hide Mantissa, Numeral.Proper, Numeral.Middle, Numeral.Text, InfinityText, NaNText;
    TextParts(n);
    MiddleParts(n);
    NotSpecial(s, |n.sign|, |n.sign| + |n.Middle()|, DotAt(n), digits);
  }

  lemma ConvertedTo(f: Format, m: Mode, n: Numeral, r: DecFloat, s0: set<Flag>, s1: set<Flag>)
    requires f.Valid() && n.Proper() && Converted(f, m, n.Text(), r, s0, s1)
    ensures Rounded(f, m, ExactOf(f, n.Neg(), n.Coefficient(), 1, ExpRead(f, n)), r, s0, s1)
  {
    assert n.Denotes(n.Text());
  }

  lemma ConvertsNumber(f: Format, m: Mode, s: string, n: Numeral, r: DecFloat, s0: set<Flag>, s1: set<Flag>)
    requires f.Valid() && n.Denotes(s)
    requires Rounded(f, m, ExactOf(f, n.Neg(), n.Coefficient(), 1, ExpRead(f, n)), r, s0, s1)
    ensures Converted(f, m, s, r, s0, s1)
  {
    NumberNotSpecial(s, n, f.pmax - 1);
    forall n': Numeral | n'.Denotes(s)
      ensures n' == n
    {
      Unambiguous(n, n');
    }
    hide Rounded, ExactOf, InfinityText, NaNText, SignalingText, Payload, Numeral.Denotes, ExpRead, Numeral.Coefficient;
  }

  /** Without a digit, or with something else behind it, there is no number. */
  lemma NoNumber(s: string, first: nat, c: nat, dot: int)
    requires Mantissa(s, first, c, dot) && !NumeralAt(s, first, c, dot).Proper()
    ensures !IsNumber(s)
  {
    if IsNumber(s) {
      var n: Numeral :| n.Denotes(s);
      OnlyReading(s, first, c, dot, n);
    }
  }

  /** A digit or a dot at the front rules out an infinity or a NaN. */
  lemma NotSpecial(s: string, first: nat, c: nat, dot: int, digits: int)
    requires Mantissa(s, first, c, dot) && c > first
    ensures !InfinityText(s) && !NaNText(s, digits)
  {
    hide Significant, DigitString, Mantissa, Caseless, Unsigned;
    MantissaStart(s, first, c, dot);
    WordNotSpecial(Unsigned(s));
  }

  /** Exponents as read are small. */
  lemma ExponentBound(f: Format, t: string)
    requires Textual(f) && ExponentText(t)
    ensures -1000000 < ExponentRead(f, t) < 1000000
  {
    var d := ExponentDigits(t);
    SignificantPart(d);
    NumberSignificant(d);
    DecBound(Values(Significant(d)));
    assert Pow10(5) == 100000;
    hide Dec, Pow10, Significant, NumDigits;
    DigitsAtMost(0 - f.Qtiny(), 5);
    if |Significant(d)| <= EmaxD(f) {
      Pow10Monotone(|Significant(d)|, 5);
    }
  }

  /** What follows the coefficient, and whether there is a digit in it at all. */
  method ReadTail(f: Format, s: string, first: nat, c: nat, dot: int) returns (ok: bool, exp: int)
    requires Textual(f) && Mantissa(s, first, c, dot) && c > first
    ensures ok <==> NumeralAt(s, first, c, dot).Proper()
    ensures ok ==> exp == ExpRead(f, NumeralAt(s, first, c, dot)) && -1000000 - |s| < exp < 1000000
  {
    hide ExponentText, ExponentRead, DigitString, IsDigit, IsSign;
    NumeralProper(s, first, c, dot);
    exp := 0;
    if c < |s| {
      ok, exp := ReadExponent(f, s, c);
      if !ok { return; }
      ExponentBound(f, s[c..]);
    }
    ok := true;
    if dot >= 0 {
      if c - first - 1 == 0 {
        return false, 0;
      }
      exp := exp - (c - 1 - dot);
    }
  }

  /** A well-formed number, read and rounded. */
  method ReadNumber(f: Format, s: string, first: nat, c: nat, dot: int, neg: bool, exp: int, set_: Context) returns (r: DecFloat)
    requires Textual(f) && |s| < 0x7000_0000
    requires Mantissa(s, first, c, dot) && neg == Negative(s) && NumeralAt(s, first, c, dot).Proper()
    requires exp == ExpRead(f, NumeralAt(s, first, c, dot)) < 1000000
    modifies set_`status
    ensures !EmptiedText(f, s) ==> Converted(f, set_.round, s, r, old(set_.status), set_.status)
  {
    hide *;
    ReadyToRead(f, s, first, c, dot);
    ghost var m, s0 := set_.round, set_.status;
    if |Body(s, first, c, dot)| <= Room(f) {
      r := ReadShort(f, s, first, c, dot, neg, exp, set_);
    } else {
      r := ReadLong(f, s, first, c, dot, neg, exp, set_);
    }
    if !EmptiedText(f, s) {
      ConvertsNumber(f, m, s, NumeralAt(s, first, c, dot), r, s0, set_.status);
    }
  }

  lemma ReadyToRead(f: Format, s: string, first: nat, c: nat, dot: int)
    requires Textual(f) && Mantissa(s, first, c, dot) && NumeralAt(s, first, c, dot).Proper()
    ensures var n := NumeralAt(s, first, c, dot);
      n.Denotes(s) && n.Neg() == Negative(s) && n.Coefficient() == Number(Body(s, first, c, dot))
    ensures f.Valid() && first < c <= |s| && |Body(s, first, c, dot)| > 0
    ensures 0x7000_0000 + 1000000 < MIN_SPECIAL
    ensures EmptiedText(f, s) <==> |Body(s, first, c, dot)| > Room(f) && s[c - 1] == '.' && Zeros(Body(s, first, c, dot))
  {
    NumeralText(s, first, c, dot);
    NumeralProper(s, first, c, dot);
    NumeralBody(s, first, c, dot);
    EmptiedExactly(f, s, first, c, dot);
  }

  /** The texts that lose all their digits are exactly those that the code finds too long, ending in a dot, and with
      only zeros before it. */
  lemma EmptiedExactly(f: Format, s: string, first: nat, c: nat, dot: int)
    requires Mantissa(s, first, c, dot) && NumeralAt(s, first, c, dot).Proper() && first < c <= |s|
    ensures EmptiedText(f, s) <==> |Body(s, first, c, dot)| > Room(f) && s[c - 1] == '.' && Zeros(Body(s, first, c, dot))
  {
    var n := NumeralAt(s, first, c, dot);
    NumeralText(s, first, c, dot);
    NumeralBody(s, first, c, dot);
    assert n.Denotes(s);
    forall n': Numeral | n'.Denotes(s)
      ensures n' == n
    {
      Unambiguous(n, n');
    }
    hide Number, ExponentText, Numeral.Text, Numeral.Denotes, Room;
    EndsInDot(s, first, c, dot);
  }

  lemma EndsInDot(s: string, first: nat, c: nat, dot: int)
    requires Mantissa(s, first, c, dot) && first < c <= |s|
    ensures var n := NumeralAt(s, first, c, dot);
      n.dot && n.frac == "" <==> s[c - 1] == '.'
    ensures s[c - 1] == '.' ==> NumeralAt(s, first, c, dot).whole == Body(s, first, c, dot)
  {
  }

  /** A special value, with the digits at the start of the buffer for its payload. */
  method StoreSpecial(f: Format, buf: array<nat>, digits: nat, neg: bool, code: int, set_: Context) returns (r: DecFloat)
    requires f.Valid() && code in {INF_CODE, QNAN_CODE, SNAN_CODE} && 0 < digits <= buf.Length
    requires AllDigits(buf[..digits]) && Dec(buf[..digits]) < Pow10(f.pmax - 1)
    modifies buf, set_`status
    ensures set_.status == old(set_.status)
    ensures r == if code == INF_CODE then Infinite(neg) else NaN(neg, code == SNAN_CODE, old(Dec(buf[..digits])))
  {
    assert buf[0..digits] == buf[..digits];
    hide Dec, Pow10, AllDigits;
    SmallModulus(Dec(buf[..digits]), Pow10(f.pmax - 1));
    var num := new BcdNum(buf, 0, digits - 1, neg, code);
    r := DecFinalize(f, num, set_);
  }

  lemma SmallModulus(c: nat, p: nat)
    requires c < p
    ensures c % p == c
  {
  }

  lemma ZeroPayload(f: Format)
    requires f.Valid()
    ensures AllDigits([0]) && Dec([0]) == 0 < Pow10(f.pmax - 1)
  {
    DecOne(0);
  }

  lemma NothingRead(s: string, first: nat, c: nat, dot: int)
    requires Mantissa(s, first, c, dot) && c == first
    ensures first <= |s| && Unsigned(s) == s[first..] && !NumeralAt(s, first, c, dot).Proper()
  {
    NumeralProper(s, first, c, dot);
    hide ExponentText, DigitString;
  }

  lemma ConvertsSpecial(f: Format, m: Mode, s: string, r: DecFloat, s0: set<Flag>)
    requires f.Valid() && !IsNumber(s)
    requires if InfinityText(s) then r == Infinite(Negative(s))
      else NaNText(s, f.pmax - 1) && r == NaN(Negative(s), SignalingText(s), Payload(s))
    ensures Converted(f, m, s, r, s0, s0)
  {
    if InfinityText(s) { InfinityNotNaN(s, f.pmax - 1); }
    hide Rounded, ExactOf, InfinityText, NaNText, SignalingText, Payload, Numeral.Denotes;
  }

  lemma InfinityNotNaN(s: string, digits: int)
    requires InfinityText(s)
    ensures !NaNText(s, digits)
  {
    var t := Unsigned(s);
    assert t[0] == 'i' || t[0] == 'I';
    assert t[..3][0] == t[0];
  }

  lemma ConvertsNothing(f: Format, m: Mode, s: string, s0: set<Flag>)
    requires f.Valid() && !IsNumber(s) && !InfinityText(s) && !NaNText(s, f.pmax - 1)
    ensures Converted(f, m, s, DEFAULT_NAN, s0, s0 + {ConversionSyntax})
  {
    hide Rounded, ExactOf, InfinityText, NaNText, SignalingText, Payload, Numeral.Denotes;
  }

  /** decFloatFromString, for texts whose characters an int can count. */
  method DecFloatFromString(f: Format, s: string, set_: Context) returns (r: DecFloat)
    requires Textual(f) && |s| < 0x7000_0000
    modifies set_`status
    ensures !EmptiedText(f, s) ==> Converted(f, set_.round, s, r, old(set_.status), set_.status)
  {
    ghost var m, s0 := set_.round, set_.status;
    hide *;
    BufferReady(f);
    var neg, first, c, dot := ScanCoefficient(s);
    var buf := new nat[BufferLength(f)];
    buf[0] := 0;
    assert buf[..1] == [0];
    if c > first {
      var ok, exp := ReadTail(f, s, first, c, dot);
      if ok {
        r := ReadNumber(f, s, first, c, dot, neg, exp, set_);
        return;
      }
      NotSpecial(s, first, c, dot, f.pmax - 1);
      NoNumber(s, first, c, dot);
    } else {
      NothingRead(s, first, c, dot);
      NoNumber(s, first, c, dot);
      var x := ReadSpecial(f, s, first, buf);
      if x.NaNRead? {
        r := StoreSpecial(f, buf, x.digits, neg, if x.signaling then SNAN_CODE else QNAN_CODE, set_);
        ConvertsSpecial(f, m, s, r, s0);
        return;
      }
      buf[0] := 0;
      assert buf[..1] == [0];
      if x.InfinityRead? {
        r := StoreSpecial(f, buf, 1, neg, INF_CODE, set_);
        ConvertsSpecial(f, m, s, r, s0);
        return;
      }
    }
    set_.status := set_.status + {ConversionSyntax};
    r := StoreSpecial(f, buf, 1, false, QNAN_CODE, set_);
    ConvertsNothing(f, m, s, s0);
  }

  lemma BufferReady(f: Format)
    requires Textual(f)
    ensures f.Valid() && 0 < f.pmax <= BufferLength(f) && AllDigits([0]) && Dec([0]) == 0 < Pow10(f.pmax - 1)
    ensures DEFAULT_NAN == NaN(false, false, 0)
  {
    ZeroPayload(f);
  }
}
