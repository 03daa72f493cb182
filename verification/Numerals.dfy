/** Numbers as text: what the syntax allows, what it denotes, and that it is unambiguous. */
module Numerals {
  import opened Digits

  predicate IsDigit(c: char) {
    '0' <= c <= '9'
  }

  predicate IsSign(c: char) {
    c == '+' || c == '-'
  }

  predicate DigitString(s: string) {
    forall i :: 0 <= i < |s| ==> IsDigit(s[i])
  }

  function DigitOf(c: char): nat {
    if IsDigit(c) then c as int - '0' as int else 0
  }

  function Values(s: string): (v: seq<nat>)
    ensures |v| == |s| && AllDigits(v)
  {
    seq(|s|, i requires 0 <= i < |s| => DigitOf(s[i]))
  }

  /** The integer a string of digits denotes. */
  function Number(s: string): nat {
    Dec(Values(s))
  }

  /** Without its leading zeros. */
  function Significant(s: string): string {
    if s != "" && s[0] == '0' then Significant(s[1..]) else s
  }

  lemma {:induction false} SignificantPart(s: string)
    ensures var t := Significant(s);
      && |t| <= |s| && (t != "" ==> t[0] != '0') && s[|s| - |t|..] == t
      && forall i :: 0 <= i < |s| - |t| ==> s[i] == '0'
  {
    if s != "" && s[0] == '0' {
      SignificantPart(s[1..]);
      var t := Significant(s[1..]);
      assert s[1..][|s| - 1 - |t|..] == s[|s| - |t|..];
      forall i | 0 <= i < |s| - |t|
        ensures s[i] == '0'
      {
        if i > 0 { assert s[i] == s[1..][i - 1]; }
      }
    }
  }

  // ---- exponents ----

  function ExponentDigits(t: string): string
    requires |t| >= 2
  {
    if IsSign(t[1]) then t[2..] else t[1..]
  }

  /** An E in either case, an optional sign, and one or more digits. */
  predicate ExponentText(t: string) {
    |t| >= 2 && (t[0] == 'E' || t[0] == 'e') && ExponentDigits(t) != "" && DigitString(ExponentDigits(t))
  }

  function ExponentValue(t: string): int
    requires |t| >= 2
  {
    if t[1] == '-' then 0 - Number(ExponentDigits(t)) else Number(ExponentDigits(t))
  }

  // ---- numbers ----

  /** A finite number in its parts. */
  datatype Numeral = Numeral(sign: string, whole: string, dot: bool, frac: string, exponent: string) {
    predicate Proper() {
      && (sign == "" || sign == "+" || sign == "-")
      && DigitString(whole) && DigitString(frac) && whole + frac != "" && (!dot ==> frac == "")
      && (exponent == "" || ExponentText(exponent))
    }

    /** The digits with their dot. */
    function Middle(): string {
      if dot then whole + ("." + frac) else whole
    }

    function Text(): string {
      sign + Middle() + exponent
    }

    predicate Neg() {
      sign == "-"
    }

    /** The digits with the dot left out. */
    function Coefficient(): nat {
      Number(whole + frac)
    }

    function Written(): int
      requires Proper()
    {
      if exponent == "" then 0 else ExponentValue(exponent)
    }

    /** The exponent of the last digit. */
    function Exp(): int
      requires Proper()
    {
      Written() - |frac|
    }

    predicate Denotes(s: string) {
      Proper() && Text() == s
    }
  }

  // ---- infinities and NaNs ----

  predicate Negative(s: string) {
    s != "" && s[0] == '-'
  }

  function Unsigned(s: string): string {
    if s != "" && IsSign(s[0]) then s[1..] else s
  }

  /** Each character is the one in lower or the one in upper. */
  predicate Caseless(s: string, lower: string, upper: string)
    requires |lower| == |upper|
  {
    |s| == |lower| && forall i :: 0 <= i < |s| ==> s[i] == lower[i] || s[i] == upper[i]
  }

  predicate InfinityText(s: string) {
    Caseless(Unsigned(s), "infinity", "INFINITY") || Caseless(Unsigned(s), "inf", "INF")
  }

  predicate SignalingText(s: string) {
    var t := Unsigned(s);
    t != "" && (t[0] == 's' || t[0] == 'S')
  }

  /** What follows the sign and the s of a signaling NaN. */
  function NaNWord(s: string): string {
    if SignalingText(s) then Unsigned(s)[1..] else Unsigned(s)
  }

  /** NaN and a payload of at most so many significant digits. */
  predicate NaNText(s: string, digits: int) {
    var t := NaNWord(s);
    |t| >= 3 && Caseless(t[..3], "nan", "NAN") && DigitString(t[3..]) && |Significant(t[3..])| <= digits
  }

  function Payload(s: string): nat
    requires |NaNWord(s)| >= 3
  {
    Number(NaNWord(s)[3..])
  }

  // ---- where the parts are ----

  /** The coefficient is s[first..c], with its dot, if any, at dot; it cannot be extended. */
  predicate Mantissa(s: string, first: nat, c: nat, dot: int) {
    && first <= c <= |s| && first == (if s != "" && IsSign(s[0]) then 1 else 0)
    && (dot == -1 || (first <= dot < c && s[dot] == '.'))
    && (forall i :: first <= i < c && i != dot ==> IsDigit(s[i]))
    && (c < |s| ==> !IsDigit(s[c]) && (s[c] == '.' ==> dot >= 0))
  }

  /** The characters of s[i..j] but for the dot. */
  function Body(s: string, i: nat, j: nat, dot: int): string
    requires i <= j <= |s|
  {
    if i <= dot < j then s[i..dot] + s[dot + 1..j] else s[i..j]
  }

  function NumeralAt(s: string, first: nat, c: nat, dot: int): Numeral
    requires Mantissa(s, first, c, dot)
  {
    if dot >= 0 then Numeral(s[..first], s[first..dot], true, s[dot + 1..c], s[c..])
    else Numeral(s[..first], s[first..c], false, "", s[c..])
  }

  lemma Cut<T>(s: seq<T>, i: nat, j: nat)
    requires i <= j <= |s|
    ensures s == s[..i] + s[i..j] + s[j..]
  {
  }

  lemma Joined<T>(a: seq<T>, b: seq<T>, c: seq<T>)
    ensures var s := a + b + c;
      |s| == |a| + |b| + |c| && s[..|a|] == a && s[|a|..|a| + |b|] == b && s[|a| + |b|..] == c
  {
  }

  /** The parts found make up the string. */
  lemma NumeralText(s: string, first: nat, c: nat, dot: int)
    requires Mantissa(s, first, c, dot)
    ensures NumeralAt(s, first, c, dot).Text() == s
  {
    var n := NumeralAt(s, first, c, dot);
    Cut(s, first, c);
    if dot >= 0 {
      Slices(s, first, dot, c);
      Slices(s, dot, dot + 1, c);
      assert s[dot..dot + 1] == ".";
    }
    assert n.Middle() == s[first..c];
  }

  /** The string is a number exactly when there is a digit and what follows is an exponent or nothing. */
  lemma NumeralProper(s: string, first: nat, c: nat, dot: int)
    requires Mantissa(s, first, c, dot)
    ensures var n := NumeralAt(s, first, c, dot);
      && n.Neg() == Negative(s) && |n.whole + n.frac| == c - first - (if dot >= 0 then 1 else 0)
      && (n.Proper() <==> |n.whole + n.frac| > 0 && (n.exponent == "" || ExponentText(n.exponent)))
  {
    hide ExponentText, IsDigit;
    SignBefore(s, first);
    DigitsBetween(s, first, if dot < 0 then c else dot);
    if dot >= 0 {
      DigitsBetween(s, dot + 1, c);
    }
  }

  lemma SignBefore(s: string, first: nat)
    requires first <= |s| && first == if s != "" && IsSign(s[0]) then 1 else 0
    ensures s[..first] == "" || s[..first] == "+" || s[..first] == "-"
    ensures s[..first] == "-" <==> Negative(s)
  {
    assert first == 1 ==> s[..first] == [s[0]];
  }

  lemma DigitsBetween(s: string, i: nat, j: nat)
    requires i <= j <= |s| && forall k :: i <= k < j ==> IsDigit(s[k])
    ensures DigitString(s[i..j])
  {
  }

  lemma NumeralBody(s: string, first: nat, c: nat, dot: int)
    requires Mantissa(s, first, c, dot)
    ensures var n := NumeralAt(s, first, c, dot);
      n.whole + n.frac == Body(s, first, c, dot)
  {
    var n := NumeralAt(s, first, c, dot);
    assert dot < 0 ==> n.whole + n.frac == s[first..c];
  }

  lemma MiddleParts(n: Numeral)
    requires n.Proper()
    ensures var mid, w := n.Middle(), |n.whole|;
      && mid != "" && mid[..w] == n.whole && (if n.dot then |mid| == w + 1 + |n.frac| else mid == n.whole)
      && (n.dot ==> mid[w] == '.' && mid[w + 1..] == n.frac)
      && forall i :: 0 <= i < |mid| && !(n.dot && i == w) ==> IsDigit(mid[i])
  {
    var mid, w := n.Middle(), |n.whole|;
    if n.dot {
      assert mid[..w] == n.whole && mid[w..] == "." + n.frac;
      assert mid[w + 1..] == n.frac;
      forall i | 0 <= i < |mid| && i != w
        ensures IsDigit(mid[i])
      {
        if i < w { assert mid[i] == n.whole[i]; } else { assert mid[i] == n.frac[i - w - 1]; }
      }
    }
  }

  /** A sign, digits with perhaps a dot among them, and no more of either. */
  lemma MantissaText(sign: string, mid: string, rest: string, d: int)
    requires sign == "" || sign == "+" || sign == "-"
    requires mid != "" && (d == -1 || (0 <= d < |mid| && mid[d] == '.'))
    requires forall i :: 0 <= i < |mid| && i != d ==> IsDigit(mid[i])
    requires rest != "" ==> !IsDigit(rest[0]) && rest[0] != '.'
    ensures Mantissa(sign + mid + rest, |sign|, |sign| + |mid|, if d < 0 then -1 else |sign| + d)
  {
    var s, a, b := sign + mid + rest, |sign|, |sign| + |mid|;
    assert a == 0 ==> s[0] == mid[0];
    assert forall i :: a <= i < b ==> s[i] == mid[i - a];
    assert b < |s| ==> s[b] == rest[0];
  }

  /** Where the dot of a numeral is in its text. */
  function DotAt(n: Numeral): int {
    if n.dot then |n.sign| + |n.whole| else -1
  }

  lemma TextMantissa(n: Numeral)
    requires n.Proper()
    ensures Mantissa(n.Text(), |n.sign|, |n.sign| + |n.Middle()|, DotAt(n))
  {
    MiddleParts(n);
    assert n.exponent != "" ==> !IsDigit(n.exponent[0]) && n.exponent[0] != '.';
    hide IsDigit, DigitString, ExponentText, Mantissa, Numeral.Middle;
    MantissaText(n.sign, n.Middle(), n.exponent, if n.dot then |n.whole| else -1);
  }

  lemma TextSlices(n: Numeral)
    requires n.Proper()
    ensures var s, a, b := n.Text(), |n.sign|, |n.sign| + |n.Middle()|;
      && s[..a] == n.sign && s[a..b] == n.Middle() && s[b..] == n.exponent
      && (n.dot ==> b == a + |n.whole| + 1 + |n.frac| && s[a..a + |n.whole|] == n.whole && s[a + |n.whole| + 1..b] == n.frac)
      && (!n.dot ==> n.Middle() == n.whole && n.frac == "")
  {
    MiddleParts(n);
    hide IsDigit, DigitString, ExponentText, Numeral.Middle;
    Joined(n.sign, n.Middle(), n.exponent);
    if n.dot {
      MiddleWithin(n.Text(), |n.sign|, |n.sign| + |n.Middle()|, |n.whole|);
    }
  }

  /** Where the coefficient of a proper numeral lies in its text. */
  lemma TextParts(n: Numeral)
    requires n.Proper()
    ensures var s, a, b := n.Text(), |n.sign|, |n.sign| + |n.Middle()|;
      Mantissa(s, a, b, DotAt(n)) && NumeralAt(s, a, b, DotAt(n)) == n
  {
    hide Mantissa, Numeral.Middle, Numeral.Text, Numeral.Proper;
    TextMantissa(n);
    TextSlices(n);
  }

  lemma MiddleWithin(s: string, a: nat, b: nat, w: nat)
    requires a <= b <= |s| && w < b - a
    ensures s[a..a + w] == s[a..b][..w] && s[a + w + 1..b] == s[a..b][w + 1..]
  {
    SameSlice(s[a..b][..w], s[a..a + w]);
    SameSlice(s[a..b][w + 1..], s[a + w + 1..b]);
  }

  lemma SameSlice(t: string, u: string)
    requires |t| == |u| && forall i :: 0 <= i < |t| ==> t[i] == u[i]
    ensures t == u
  {
  }

  /** Two maximal coefficients in one string are the same. */
  lemma MantissaUnique(s: string, first: nat, c: nat, dot: int, first': nat, c': nat, dot': int)
    requires Mantissa(s, first, c, dot) && Mantissa(s, first', c', dot')
    ensures first == first' && c == c' && dot == dot'
  {
  }

  /** The syntax is unambiguous: a text has no reading but the one the positions give. */
  lemma OnlyReading(s: string, first: nat, c: nat, dot: int, n: Numeral)
    requires Mantissa(s, first, c, dot) && n.Denotes(s)
    ensures n == NumeralAt(s, first, c, dot)
  {
    TextParts(n);
    MantissaUnique(s, first, c, dot, |n.sign|, |n.sign| + |n.Middle()|, DotAt(n));
  }

  /** So two numerals written alike are one. */
  lemma Unambiguous(n: Numeral, n': Numeral)
    requires n.Proper() && n'.Proper() && n.Text() == n'.Text()
    ensures n == n'
  {
    TextParts(n);
    OnlyReading(n.Text(), |n.sign|, |n.sign| + |n.Middle()|, DotAt(n), n');
  }
}
