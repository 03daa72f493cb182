/** decFloatToString and decFloatToEngString, laid out in place. */
module ToString {
  import opened Powers
  import opened Digits
  import opened Formats
  import opened Thousands
  import opened Scanning
  import opened FromString
  import opened Printing
  import opened CharBuffer

  /** A format whose coefficients are whole declets and whose exponents, also when moved to a multiple
      of three, have at most as many digits as the parser reads, and at most four. */
  predicate Printable(f: Format) {
    Textual(f) && Decletted(f) && f.pmax >= 4 && f.Qtiny() > -9998 && NumDigits(2 - f.Qtiny()) <= EmaxD(f)
  }

  lemma PrintableFormats()
    ensures Printable(SINGLE) && Printable(DOUBLE) && Printable(QUAD)
  {
    assert Pow10(2) == 100 && Pow10(3) == 1000 && Pow10(4) == 10000;
    NumDigitsUnique(101, 3);
    NumDigitsUnique(103, 3);
    NumDigitsUnique(398, 3);
    NumDigitsUnique(400, 3);
    NumDigitsUnique(6176, 4);
    NumDigitsUnique(6178, 4);
    hide NumDigits, Pow10;
  }

  /** The longest string, with its terminator (DECSTRING). */
  function StringLength(f: Format): nat {
    f.pmax + 9
  }

  // ---- the digits ----

  /** What is written of a number whose leading zeros are left out. */
  function Written(v: nat): string {
    if v == 0 then "" else DigitChars(v)
  }

  function Triple(d: nat): (t: string)
    ensures |t| == 3
  {
    [CharOf(d / 100), CharOf(d / 10 % 10), CharOf(d % 10)]
  }

  lemma NextTriple(v: nat, d: nat)
    requires d < 1000
    ensures Written(v * 1000 + d) == if v == 0 then Written(d) else Written(v) + Triple(d)
  {
    if v > 0 {
      ThreeMore(v, d);
      var w := v * 1000 + d;
      hide CharOf;
      assert DigitChars(w) == DigitChars(w / 10) + [CharOf(w % 10)];
      assert DigitChars(w / 10) == DigitChars(w / 10 / 10) + [CharOf(w / 10 % 10)];
      assert DigitChars(w / 10 / 10) == DigitChars(w / 10 / 10 / 10) + [CharOf(w / 10 / 10 % 10)];
      hide DigitChars;
    }
  }

  lemma ThreeMore(v: nat, d: nat)
    requires d < 1000
    ensures var w := v * 1000 + d;
      w / 10 / 10 / 10 == v && w % 10 == d % 10 && w / 10 % 10 == d / 10 % 10 && w / 10 / 10 % 10 == d / 100
  {
    assert (v * 1000 + d) / 10 == v * 100 + d / 10;
    assert (v * 1000 + d) / 10 / 10 == v * 10 + d / 100;
  }

  /** The last l of a triple's characters are its significant digits. */
  lemma SignificantTriple(d: nat)
    requires 0 < d < 1000
    ensures NumDigits(d) <= 3 && Written(d) == Triple(d)[3 - NumDigits(d)..]
  {
    UpToThree(d);
    LowDigits(d);
    hide DigitChars, NumDigits, CharOf;
    TripleTail(CharOf(d / 100), CharOf(d / 10 % 10), CharOf(d % 10));
  }

  lemma LowDigits(d: nat)
    ensures d < 10 ==> d % 10 == d
    ensures d < 100 ==> d / 10 % 10 == d / 10
  {
  }

  lemma TripleTail(a: char, b: char, c: char)
    ensures [a, b, c][2..] == [c] && [a, b, c][1..] == [b, c] && [a, b, c][0..] == [a, b, c]
  {
  }

  lemma UpToThree(d: nat)
    requires d < 1000
    ensures NumDigits(d) == if d < 10 then 1 else if d < 100 then 2 else 3
    ensures DigitChars(d) == if d < 10 then [CharOf(d)] else if d < 100 then [CharOf(d / 10), CharOf(d % 10)]
      else [CharOf(d / 100), CharOf(d / 10 % 10), CharOf(d % 10)]
  {
    hide CharOf;
    if d >= 10 {
      assert DigitChars(d) == DigitChars(d / 10) + [CharOf(d % 10)];
      if d >= 100 {
        assert DigitChars(d / 10) == DigitChars(d / 10 / 10) + [CharOf(d / 10 % 10)];
      }
    }
  }

  /** Appends a string to what has been laid out so far. */
  method Append(str: array<char>, c: nat, t: string) returns (c': nat)
    requires c + |t| <= str.Length
    modifies str
    ensures c' == c + |t| && str[..c'] == old(str[..c]) + t
  {
    c' := c;
    for i := 0 to |t|
      invariant c' == c + i && str[..c'] == old(str[..c]) + t[..i]
    {
      str[c'] := t[i];
      c' := c' + 1;
    }
    assert t[..|t|] == t;
  }

  /** Writes a declet: all three digits, or, as long as nothing has been written, only the significant ones. */
  method PutDeclet(str: array<char>, cstart: nat, c: nat, d: nat, ghost v: nat) returns (c': nat)
    requires cstart <= c && c + 3 <= str.Length && d < 1000 && str[cstart..c] == Written(v) && |Written(v)| == c - cstart
    modifies str
    ensures c <= c' <= c + 3 && str[cstart..c'] == Written(v * 1000 + d) && str[..cstart] == old(str[..cstart])
  {
    hide *;
    NextTriple(v, d);
    WrittenEmpty(v);
    ghost var was := str[..];
    c' := c;
    if c != cstart {
      c' := Append(str, c, Triple(d));
      TailAfter(was, str[..], cstart, c, Triple(d));
    } else if d != 0 {
      SignificantTriple(d);
      c' := Append(str, c, Triple(d)[3 - NumDigits(d)..]);
      TailAfter(was, str[..], cstart, c, Triple(d)[3 - NumDigits(d)..]);
      JoinNothing'(Written(d));
    } else {
      WrittenEmpty(d);
    }
  }

  lemma JoinNothing'(a: string)
    ensures "" + a == a
  {
  }

  /** What has been laid out from cstart on once t is appended. */
  lemma TailAfter(was: string, now: string, cstart: nat, c: nat, t: string)
    requires cstart <= c && c + |t| <= |now| == |was| && now[..c + |t|] == was[..c] + t
    ensures now[cstart..c + |t|] == was[cstart..c] + t && now[..cstart] == was[..cstart]
  {
    var u := now[..c + |t|];
    assert now[cstart..c + |t|] == u[cstart..];
    assert now[..cstart] == u[..cstart];
    assert was[cstart..c] == was[..c][cstart..];
    assert was[..cstart] == was[..c][..cstart];
  }

  lemma WrittenEmpty(v: nat)
    ensures Written(v) == "" <==> v == 0
  {
  }

  /** A declet of the coefficient follows on those before it. */
  lemma DecletBelow(c: nat, k: nat)
    ensures Quotient(c, PowT(k)) == Quotient(c, PowT(k + 1)) * 1000 + Quotient(c, PowT(k)) % 1000
  {
    var p := PowT(k);
    hide PowT;
    DivModFact(c, p);
    assert PowT(k + 1) == p * 1000 by { NextPowT(k); }
    ThousandTimes(c, p);
  }

  lemma NextPowT(k: nat)
    ensures PowT(k + 1) == PowT(k) * 1000
  {
  }

  lemma ThousandTimes(c: nat, p: nat)
    requires p > 0
    ensures c / (p * 1000) == c / p / 1000
  {
    var q, r := c / p, c % p;
    DivModFact(c, p);
    DivModFact(q, 1000);
    assert q == q / 1000 * 1000 + q % 1000;
    assert q * p == q / 1000 * (p * 1000) + q % 1000 * p by {
      assert (q / 1000 * 1000 + q % 1000) * p == q / 1000 * 1000 * p + q % 1000 * p;
      MulAssoc(q / 1000, 1000, p);
    }
    MulLe(q % 1000, 999, p);
    DivModUnique(c, p * 1000, q / 1000, q % 1000 * p + r);
  }

  lemma CoefficientTop(f: Format, coef: nat)
    requires Printable(f) && coef < Pow10(f.pmax)
    ensures Decletted(f) && Quotient(coef, PowT(Declets(f))) < 10 && Quotient(coef, PowT(0)) == coef && f.pmax == 1 + 3 * Declets(f)
  {
    PowTIsPow10(Declets(f));
    assert Pow10(f.pmax) == 10 * Pow10(f.pmax - 1);
    hide Pow10;
    DivModFact(coef, Pow10(f.pmax - 1));
    if coef / Pow10(f.pmax - 1) >= 10 {
      MulLe(10, coef / Pow10(f.pmax - 1), Pow10(f.pmax - 1));
    }
  }

  /** Writes the digits of a coefficient, without leading zeros: its first digit, then its declets. */
  method PutCoefficient(f: Format, coef: nat, str: array<char>, cstart: nat) returns (c: nat)
    requires Printable(f) && coef < Pow10(f.pmax) && cstart + f.pmax <= str.Length
    modifies str
    ensures c == cstart + NumDigits(coef) <= cstart + f.pmax && str[..c] == old(str[..cstart]) + DigitChars(coef)
  {
    hide *;
    ghost var before := str[..cstart];
    c := cstart;
    CoefficientTop(f, coef);
    var msd := Quotient(coef, PowT(Declets(f)));
    OneDigitWritten(msd);
    if msd != 0 {
      c := Append(str, c, [CharOf(msd)]);
    }
    SplitAt(str[..c], before, Written(msd));
    for k := Declets(f) downto 0
      invariant cstart <= c <= cstart + 1 + 3 * (Declets(f) - k)
      invariant str[cstart..c] == Written(Quotient(coef, PowT(k))) && str[..cstart] == before
    {
      DecletBelow(coef, k);
      c := PutDeclet(str, cstart, c, Quotient(coef, PowT(k)) % 1000, Quotient(coef, PowT(k + 1)));
    }
    WrittenAll(coef);
    Slices(str[..], 0, cstart, c);
    if c == cstart {
      c := Append(str, c, "0");
    }
  }

  lemma SplitAt(s: string, a: string, b: string)
    requires s == a + b
    ensures s[..|a|] == a && s[|a|..] == b
  {
  }

  lemma OneDigitWritten(d: nat)
    requires d < 10
    ensures Written(d) == if d == 0 then "" else [CharOf(d)]
  {
  }

  lemma WrittenAll(c: nat)
    ensures DigitChars(c) == if Written(c) == "" then "0" else Written(c)
    ensures |DigitChars(c)| == NumDigits(c)
  {
    DigitCharsFacts(c);
  }

  // ---- the dot, zeros in front, and the exponent ----

  /** Opens a gap in the digits and puts the dot in it. */
  method InsertDot(str: array<char>, dotat: nat, c: nat)
    requires dotat < c && c + 4 < str.Length
    modifies str
    ensures str[..c + 1] == old(str[..dotat]) + ("." + old(str[dotat..c]))
  {
    hide *;
    ghost var tail, head := str[dotat..c], str[..dotat];
    OpenGap(str, dotat, c);
    str[dotat] := '.';
    Slices(str[..], 0, dotat, c + 1);
    Slices(str[..], dotat, dotat + 1, c + 1);
    assert str[dotat..dotat + 1] == ".";
    assert str[dotat + 1..c + 1] == tail;
    assert str[0..dotat] == head;
  }

  /** Puts 0. and zeros in a gap, overlapping where that saves a test. */
  method FillGap(str: array<char>, cstart: nat, gap: nat)
    requires 2 <= gap <= 7 && cstart + gap <= str.Length
    modifies str
    ensures str[cstart..cstart + gap] == "0." + ZeroChars(gap - 2)
    ensures forall i :: 0 <= i < str.Length && !(cstart <= i < cstart + gap) ==> str[i] == old(str[i])
  {
    hide *;
    if gap >= 4 {
      var at := cstart + gap - 4;
      str[at], str[at + 1], str[at + 2], str[at + 3] := '0', '0', '0', '0';
      str[cstart], str[cstart + 1], str[cstart + 2], str[cstart + 3] := '0', '.', '0', '0';
    } else {
      str[cstart + gap - 1] := '0';
      str[cstart], str[cstart + 1] := '0', '.';
    }
    GapFilled(str[cstart..cstart + gap], gap);
  }

  /** Moves the digits to the right and puts 0. and zeros in front of them. */
  method LeadZeros(str: array<char>, cstart: nat, c: nat, gap: nat)
    requires cstart <= 1 && cstart < c && 2 <= gap <= 7 && c + gap < str.Length && str.Length >= 12
    modifies str
    ensures str[..c + gap] == old(str[..cstart]) + (("0." + ZeroChars(gap - 2)) + old(str[cstart..c]))
  {
    hide *;
    ghost var tail, head := str[cstart..c], str[..cstart];
    ShiftRight(str, cstart, c, gap);
    ghost var moved := str[..];
    FillGap(str, cstart, gap);
    SamePart(moved, str[..], 0, cstart);
    SamePart(moved, str[..], cstart + gap, c + gap);
    Slices(str[..], 0, cstart, c + gap);
    Slices(str[..], cstart, cstart + gap, c + gap);
  }

  lemma GapFilled(s: string, gap: nat)
    requires |s| == gap >= 2 && s[0] == '0' && s[1] == '.' && forall i :: 2 <= i < gap ==> s[i] == '0'
    ensures s == "0." + ZeroChars(gap - 2)
  {
  }

  /** A shift, a multiplication and a shift divide by a thousand. */
  lemma ThousandsOf(e: nat)
    requires e < 10000
    ensures e / 8 * 1049 / 0x2_0000 == e / 1000
  {
  }

  /** Appends E, a sign, and the exponent's digits. */
  method PutExponent(str: array<char>, c: nat, e: int) returns (c': nat)
    requires e != 0 && -10000 < e < 10000 && c + 6 <= str.Length
    modifies str
    ensures c < c' <= c + 6 && str[..c'] == old(str[..c]) + ExponentChars(e)
  {
    hide *;
    ghost var before := str[..c];
    c' := Append(str, c, "E+");
    var m := e;
    if e < 0 {
      str[c' - 1] := '-';
      m := 0 - e;
    }
    ghost var lead := if e < 0 then "E-" else "E+";
    assert str[..c'] == before + lead;
    ThousandsOf(m);
    NextTriple(m / 1000, m % 1000);
    ExponentParts(e, m);
    if m < 1000 {
      SignificantTriple(m);
      c' := Append(str, c', Triple(m)[3 - NumDigits(m)..]);
    } else {
      var thou := m / 8 * 1049 / 0x2_0000;
      c' := Append(str, c', [CharOf(thou)] + Triple(m - 1000 * thou));
    }
    JoinThree(before, lead, Written(m));
  }

  lemma JoinThree(a: string, b: string, c: string)
    ensures (a + b) + c == a + (b + c)
  {
  }

  lemma ExponentParts(e: int, m: nat)
    requires e != 0 && -10000 < e < 10000 && m == if e < 0 then 0 - e else e
    ensures ExponentChars(e) == (if e < 0 then "E-" else "E+") + Written(m)
    ensures m >= 1000 ==> Written(m / 1000) == [CharOf(m / 1000)] && m / 1000 > 0
    ensures 0 < m == m / 1000 * 1000 + m % 1000 && |Triple(m % 1000)| == 3
  {
    assert "E" + "-" == "E-" && "E" + "+" == "E+";
    OneDigitWritten(if m / 1000 < 10 then m / 1000 else 0);
    hide DigitChars, CharOf;
  }

  // ---- putting it together ----

  lemma SignedParts(s: string, c: nat, sign: string, d: string, pre: nat)
    requires c <= |s| && s[..c] == sign + d && pre <= |d|
    ensures c == |sign| + |d| && s[..|sign| + pre] == sign + d[..pre] && s[|sign| + pre..c] == d[pre..]
    ensures s[..|sign|] == sign && s[|sign|..c] == d
  {
    var t := s[..c];
    assert s[..|sign| + pre] == t[..|sign| + pre] == sign + d[..pre];
    assert s[|sign| + pre..c] == t[|sign| + pre..] == d[pre..];
    assert s[..|sign|] == t[..|sign|] == sign;
    assert s[|sign|..c] == t[|sign|..] == d;
  }

  /** A number without its exponent. */
  function Front(sign: string, d: string, pre: int): string
    requires d != ""
  {
    if pre >= |d| then sign + d
    else if pre > 0 then (sign + d[..pre]) + ("." + d[pre..])
    else sign + (("0." + ZeroChars(0 - pre)) + d)
  }

  /** The text of the three shapes a number can have. */
  lemma PlainText(neg: bool, d: string, pre: int, exponent: string)
    requires d != ""
    ensures PlainNumeral(neg, d, pre, exponent).Text() == Front(SignChars(neg), d, pre) + exponent
  {
    FrontMiddle(SignChars(neg), d, pre);
    hide ZeroChars, Front, SignChars;
  }

  lemma FrontMiddle(sign: string, d: string, pre: int)
    requires d != ""
    ensures Front(sign, d, pre) == sign +
      if pre >= |d| then d else if pre > 0 then d[..pre] + ("." + d[pre..]) else "0" + ("." + (ZeroChars(0 - pre) + d))
  {
    if pre >= |d| {
    } else if pre > 0 {
      JoinThree(sign, d[..pre], "." + d[pre..]);
    } else {
      ZeroDot(ZeroChars(0 - pre), d);
    }
  }

  lemma ZeroDot(z: string, d: string)
    ensures ("0." + z) + d == "0" + ("." + (z + d))
  {
    JoinThree("0.", z, d);
    JoinThree("0", ".", z + d);
    assert "0" + "." == "0.";
  }

  lemma SignLength(neg: bool)
    ensures |SignChars(neg)| == if neg then 1 else 0
  {
  }

  lemma NoExponent()
    ensures ExponentChars(0) == ""
  {
  }

  lemma JoinNothing(a: string)
    ensures a + "" == a
  {
  }

  /** A dot among the digits, or zeros in front of them. */
  method PlaceDot(str: array<char>, ghost sign: string, ghost d: string, cstart: nat, c: nat, pre: int) returns (len: nat)
    requires d != "" && c <= str.Length && str[..c] == sign + d && cstart == |sign| <= 1 && str.Length >= 12
    requires -5 <= pre <= |d|
    requires if pre > 0 then c + 4 < str.Length else c + (2 - pre) < str.Length
    modifies str
    ensures len == (if pre == |d| then c else if pre > 0 then c + 1 else c + (2 - pre)) && str[..len] == Front(sign, d, pre)
  {
    hide *;
    SignedParts(str[..], c, sign, d, if pre > 0 then pre else 0);
    FrontCases(sign, d, pre);
    len := c;
    if pre > 0 {
      var dotat := cstart + pre;
      if dotat < c {
        InsertDot(str, dotat, c);
        len := c + 1;
      }
    } else {
      LeadZeros(str, cstart, c, 2 - pre);
      len := c + (2 - pre);
    }
  }

  lemma FrontCases(sign: string, d: string, pre: int)
    requires d != ""
    ensures pre >= |d| ==> Front(sign, d, pre) == sign + d
    ensures 0 < pre < |d| ==> Front(sign, d, pre) == (sign + d[..pre]) + ("." + d[pre..])
    ensures pre <= 0 ==> Front(sign, d, pre) == sign + (("0." + ZeroChars(0 - pre)) + d)
  {
  }

  /** Dot or leading zeros, then the exponent if there is one, around digits already laid out. */
  method LayNumber(str: array<char>, neg: bool, ghost d: string, cstart: nat, c: nat, pre: int, e: int) returns (len: nat)
    requires d != "" && c <= str.Length && str[..c] == SignChars(neg) + d && cstart == |SignChars(neg)| && str.Length >= 12
    requires -5 <= pre <= |d| && -10000 < e < 10000
    requires if pre > 0 then c + 7 < str.Length else c + (2 - pre) + (if e != 0 then 6 else 0) < str.Length
    modifies str
    ensures len < str.Length && str[..len] == PlainNumeral(neg, d, pre, ExponentChars(e)).Text()
  {
    hide *;
    SignLength(neg);
    PlainText(neg, d, pre, ExponentChars(e));
    len := PlaceDot(str, SignChars(neg), d, cstart, c, pre);
    if e != 0 {
      len := PutExponent(str, len, e);
    } else {
      NoExponent();
      JoinNothing(str[..len]);
    }
  }

  /** The text of a datum, in scientific or in engineering form. */
  function TextOf(x: DecFloat, engineering: bool): string {
    match x
    case Finite(neg, c, e) => (if engineering then Engineering(neg, c, e) else Scientific(neg, c, e)).Text()
    case Infinite(neg) => SignChars(neg) + "Infinity"
    case NaN(neg, s, p) => SignChars(neg) + (if s then "sNaN" else "NaN") + Written(p)
  }

  /** An infinity or a NaN; a payload follows as an integer. */
  method LaySpecial(f: Format, x: DecFloat, str: array<char>, cstart: nat) returns (len: nat)
    requires Printable(f) && !x.Finite? && x.Fits(f) && str.Length >= StringLength(f)
    requires cstart == |SignChars(x.neg)| <= str.Length && str[..cstart] == SignChars(x.neg)
    modifies str
    ensures len < str.Length && str[..len] == TextOf(x, false) == TextOf(x, true)
  {
    SignLength(x.neg);
    hide Written, DigitChars, SignChars, Decletted, Pow10, NumDigits;
    if x.Infinite? {
      len := Append(str, cstart, "Infinity");
      return;
    }
    len := Append(str, cstart, if x.signaling then "sNaN" else "NaN");
    WrittenEmpty(x.payload);
    WrittenAll(x.payload);
    if x.payload != 0 {
      PayloadLength(f, x.payload);
      len := PutCoefficient(f, x.payload, str, len);
    } else {
      JoinNothing(str[..len]);
    }
  }

  lemma PayloadLength(f: Format, p: nat)
    requires f.Valid() && p < Pow10(f.pmax - 1)
    ensures p < Pow10(f.pmax) && NumDigits(p) <= f.pmax - 1
  {
    assert Pow10(f.pmax) == 10 * Pow10(f.pmax - 1);
    DigitsAtMost(p, f.pmax - 1);
  }

  // ---- the printers ----

  /** Sizes and exponents stay small enough for the buffer. */
  lemma Sizes(f: Format, x: DecFloat)
    requires Printable(f) && x.Finite? && x.Fits(f)
    ensures x.coef < Pow10(f.pmax) && 1 <= NumDigits(x.coef) <= f.pmax
    ensures -9998 < x.exp + NumDigits(x.coef) - 1 < 10000 && StringLength(f) >= 13 && StringLength(f) == f.pmax + 9
    ensures x.exp + NumDigits(x.coef) - 1 >= f.Qtiny() && x.exp + NumDigits(x.coef) - 1 <= f.emax
  {
    DigitsAtMost(x.coef, f.pmax);
    hide Pow10, NumDigits;
  }

  lemma DigitsOf(c: nat)
    ensures DigitChars(c) != "" && |DigitChars(c)| == NumDigits(c) && (c == 0 ==> |DigitChars(c)| == 1)
  {
    DigitCharsFacts(c);
  }

  /** The sign, and where the coefficient starts. */
  method PutSign(str: array<char>, neg: bool) returns (cstart: nat)
    requires str.Length > 0
    modifies str
    ensures cstart == |SignChars(neg)| <= 1 && str[..cstart] == SignChars(neg)
  {
    cstart := 0;
    if neg {
      str[0] := '-';
      cstart := 1;
    }
  }

  lemma ScientificCases(neg: bool, c: nat, e: int)
    ensures var d := DigitChars(c);
      d != "" && Scientific(neg, c, e) ==
        if e > 0 || |d| + e < -5 then PlainNumeral(neg, d, 1, ExponentChars(|d| + e - 1))
        else PlainNumeral(neg, d, |d| + e, ExponentChars(0))
  {
    DigitsOf(c);
    NoExponent();
    hide DigitChars, PlainNumeral, ExponentChars, NumDigits, ZeroChars;
  }

  lemma TextIsScientific(x: DecFloat)
    requires x.Finite?
    ensures TextOf(x, false) == Scientific(x.neg, x.coef, x.exp).Text()
    ensures TextOf(x, true) == Engineering(x.neg, x.coef, x.exp).Text()
  {
  }

  /** decFloatToString. */
  method DecFloatToString(f: Format, x: DecFloat, str: array<char>) returns (len: nat)
    requires Printable(f) && x.Fits(f) && str.Length >= StringLength(f)
    modifies str
    ensures len < str.Length && str[len] == '\0' && str[..len] == TextOf(x, false)
  {
    hide *;
    StringRoom(f);
    var cstart := PutSign(str, x.neg);
    if !x.Finite? {
      len := LaySpecial(f, x, str, cstart);
    } else {
      Sizes(f, x);
      TextIsScientific(x);
      ScientificCases(x.neg, x.coef, x.exp);
      DigitsOf(x.coef);
      var c := PutCoefficient(f, x.coef, str, cstart);
      var e, pre := 0, c - cstart + x.exp;
      if x.exp > 0 || pre < -5 {
        e := pre - 1;
        pre := 1;
      }
      len := LayNumber(str, x.neg, DigitChars(x.coef), cstart, c, pre, e);
    }
    ghost var text := str[..len];
    str[len] := '\0';
    assert str[..len] == text;
  }

  lemma StringRoom(f: Format)
    requires Printable(f)
    ensures StringLength(f) == f.pmax + 9 >= 13
  {
  }

  /** The remainder of an exponent, made positive by cases. */
  method Adjustment(e: int) returns (adj: int)
    ensures adj == e % 3
  {
    if e < 0 {
      adj := (0 - e) % 3;
      if adj != 0 {
        adj := 3 - adj;
      }
    } else {
      adj := e % 3;
    }
  }

  lemma EngineeringCases(neg: bool, c: nat, e: int)
    ensures var d := DigitChars(c);
      var a := e + |d| - 1;
      var k := a % 3;
      d != "" && Engineering(neg, c, e) ==
        if !(e > 0 || |d| + e < -5) then PlainNumeral(neg, d, |d| + e, ExponentChars(0))
        else if c == 0 && k > 0 then PlainNumeral(neg, d, k - 2, ExponentChars(a - k + 3))
        else PlainNumeral(neg, d + ZeroChars(if 1 + k > |d| then 1 + k - |d| else 0), 1 + k, ExponentChars(a - k))
  {
    DigitsOf(c);
    NoExponent();
    hide DigitChars, PlainNumeral, ExponentChars, NumDigits, ZeroChars;
  }

  /** Zeros up to where the dot would be. */
  method Pad(str: array<char>, c: nat, dotat: nat) returns (c': nat)
    requires c <= str.Length && dotat <= str.Length
    modifies str
    ensures c' == (if c < dotat then dotat else c) && str[..c'] == old(str[..c]) + ZeroChars(c' - c)
  {
    c' := c;
    while c' < dotat
      invariant c <= c' && (c' <= dotat || c' == c) && str[..c'] == old(str[..c]) + ZeroChars(c' - c)
    {
      str[c'] := '0';
      c' := c' + 1;
    }
  }

  /** The exponential part of the engineering form: where the dot goes and what exponent is left. */
  method EngineeringPlace(adjusted: int, zero: bool) returns (pre: int, e: int)
    requires -9998 < adjusted < 10000
    ensures var k := adjusted % 3;
      if zero && k > 0 then pre == k - 2 && e == adjusted - k + 3 else pre == 1 + k && e == adjusted - k
    ensures -1 <= pre <= 3 && -10000 < e < 10000
  {
    pre, e := 1, adjusted;
    if e != 0 {
      var adj := Adjustment(e);
      e := e - adj;
      if !zero {
        pre := pre + adj;
      } else if adj != 0 {
        e := e + 3;
        pre := 0 - (2 - adj);
      }
    }
  }

  /** Digits, padding, dot and exponent of the exponential engineering form. */
  method LayEngineering(f: Format, str: array<char>, neg: bool, coef: nat, cstart: nat, c: nat, exp: int) returns (len: nat)
    requires Printable(f) && str.Length >= StringLength(f) && cstart == |SignChars(neg)| && c <= str.Length
    requires str[..c] == SignChars(neg) + DigitChars(coef) && c - cstart == NumDigits(coef) <= f.pmax
    requires (exp > 0 || NumDigits(coef) + exp < -5) && -9998 < exp + NumDigits(coef) - 1 < 10000
    modifies str
    ensures len < str.Length && str[..len] == Engineering(neg, coef, exp).Text()
  {
    hide *;
    StringRoom(f);
    DigitsOf(coef);
    SignLength(neg);
    EngineeringCases(neg, coef, exp);
    var adjusted := c - cstart + exp - 1;
    var pre, e := EngineeringPlace(adjusted, coef == 0);
    var c' := c;
    ghost var d := DigitChars(coef);
    if pre > 0 {
      c' := Pad(str, c, cstart + pre);
      JoinThree(SignChars(neg), d, ZeroChars(c' - c));
      d := d + ZeroChars(c' - c);
    }
    len := LayNumber(str, neg, d, cstart, c', pre, e);
  }

  /** decFloatToEngString. */
  method DecFloatToEngString(f: Format, x: DecFloat, str: array<char>) returns (len: nat)
    requires Printable(f) && x.Fits(f) && str.Length >= StringLength(f)
    modifies str
    ensures len < str.Length && str[len] == '\0' && str[..len] == TextOf(x, true)
  {
    hide *;
    StringRoom(f);
    var cstart := PutSign(str, x.neg);
    if !x.Finite? {
      len := LaySpecial(f, x, str, cstart);
    } else {
      Sizes(f, x);
      TextIsScientific(x);
      DigitsOf(x.coef);
      EngineeringCases(x.neg, x.coef, x.exp);
      var c := PutCoefficient(f, x.coef, str, cstart);
      var pre := c - cstart + x.exp;
      if x.exp > 0 || pre < -5 {
        len := LayEngineering(f, str, x.neg, x.coef, cstart, c, x.exp);
      } else {
        len := LayNumber(str, x.neg, DigitChars(x.coef), cstart, c, pre, 0);
      }
    }
    ghost var text := str[..len];
    str[len] := '\0';
    assert str[..len] == text;
  }
}
