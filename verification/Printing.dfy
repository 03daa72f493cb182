/** How a datum is written: scientific and engineering forms, and what they denote. */
module Printing {
  import opened Powers
  import opened Digits
  import opened Sums
  import opened Numerals
  import opened Scanning
  import opened LongText

  function CharOf(d: nat): (c: char)
    ensures d <= 9 ==> IsDigit(c) && DigitOf(c) == d
  {
    if d <= 9 then ('0' as int + d) as char else '0'
  }

  /** A coefficient without leading zeros; a zero has one digit. */
  function DigitChars(c: nat): string {
    if c < 10 then [CharOf(c)] else DigitChars(c / 10) + [CharOf(c % 10)]
  }

  lemma {:induction false} DigitCharsFacts(c: nat)
    ensures var t := DigitChars(c);
      && DigitString(t) && Number(t) == c && |t| == NumDigits(c) && (c > 0 ==> t[0] != '0')
  {
    var t := DigitChars(c);
    if c < 10 {
      assert Values(t) == [c];
      DecOne(c);
    } else {
      DigitCharsFacts(c / 10);
      ValuesSnoc(DigitChars(c / 10), CharOf(c % 10));
      DecSnoc(Values(DigitChars(c / 10)), c % 10);
    }
  }

  function ZeroChars(n: nat): (s: string)
    ensures |s| == n
  {
    seq(n, _ => '0')
  }

  /** A non-zero exponent, always with its sign. */
  function ExponentChars(e: int): string {
    if e == 0 then "" else "E" + (if e < 0 then "-" else "+") + DigitChars(Magnitude(e))
  }

  lemma ExponentCharsFacts(e: int)
    ensures var t := ExponentChars(e);
      && (t == "" || ExponentText(t)) && (t == "" <==> e == 0) && (e != 0 ==> ExponentValue(t) == e)
      && (e != 0 ==> t[1..] == (if e < 0 then "-" else "+") + DigitChars(Magnitude(e)))
      && (e != 0 ==> ExponentDigits(t) == DigitChars(Magnitude(e)))
  {
    DigitCharsFacts(Magnitude(e));
    if e != 0 {
      var t := ExponentChars(e);
      assert t[2..] == DigitChars(Magnitude(e));
      assert t[1..] == (if e < 0 then "-" else "+") + DigitChars(Magnitude(e));
      hide DigitChars, Number, NumDigits;
    }
  }

  function SignChars(neg: bool): string {
    if neg then "-" else ""
  }

  /** Digits with the dot after the first pre of them, or behind zeros. */
  function PlainNumeral(neg: bool, d: string, pre: int, exponent: string): Numeral
    requires d != ""
  {
    if pre >= |d| then Numeral(SignChars(neg), d, false, "", exponent)
    else if pre > 0 then Numeral(SignChars(neg), d[..pre], true, d[pre..], exponent)
    else Numeral(SignChars(neg), "0", true, ZeroChars(0 - pre) + d, exponent)
  }

  /** The exponential form is used for positive exponents and for numbers below a millionth. */
  predicate Exponential(digits: nat, e: int) {
    e > 0 || digits + e < -5
  }

  /** Scientific form: one digit before the dot when there is an exponent. */
  function Scientific(neg: bool, c: nat, e: int): Numeral {
    DigitCharsFacts(c);
    var d := DigitChars(c);
    if Exponential(|d|, e) then PlainNumeral(neg, d, 1, ExponentChars(e + |d| - 1))
    else PlainNumeral(neg, d, |d| + e, "")
  }

  /** Engineering form: an exponent that is a multiple of three, and one to three digits before the dot,
      with zeros added where there are not enough. */
  function Engineering(neg: bool, c: nat, e: int): Numeral {
    DigitCharsFacts(c);
    var d := DigitChars(c);
    var adjusted := e + |d| - 1;
    var k := adjusted % 3;
    if !Exponential(|d|, e) then PlainNumeral(neg, d, |d| + e, "")
    else if c == 0 && k > 0 then PlainNumeral(neg, d, k - 2, ExponentChars(adjusted - k + 3))
    else PlainNumeral(neg, d + ZeroChars(if 1 + k > |d| then 1 + k - |d| else 0), 1 + k, ExponentChars(adjusted - k))
  }

  // ---- what they denote ----

  lemma ZerosAreDigits(n: nat, d: string)
    requires DigitString(d)
    ensures DigitString(ZeroChars(n) + d) && DigitString(d + ZeroChars(n))
    ensures Number(ZeroChars(n) + d) == Number(d)
    ensures Number(d + ZeroChars(n)) == Number(d) * Pow10(n)
  {
    NumberZeros(ZeroChars(n), d);
    ValuesJoin(d, ZeroChars(n));
    DecPad(Values(d), Values(ZeroChars(n)));
  }

  lemma ValuesJoin(a: string, b: string)
    ensures Values(a + b) == Values(a) + Values(b)
  {
  }

  /** Placing the dot and adding an exponent to match. */
  lemma PlainMeans(neg: bool, d: string, pre: int, a: int)
    requires d != "" && DigitString(d) && (pre < |d| || pre == |d|)
    ensures var n := PlainNumeral(neg, d, pre, ExponentChars(a));
      n.Proper() && n.Neg() == neg && n.Coefficient() == Number(d) && n.Exp() == a - (|d| - pre) && n.Written() == a
  {
    ExponentCharsFacts(a);
    hide ExponentChars, ExponentText, ExponentValue, DigitChars, Number;
    var n := PlainNumeral(neg, d, pre, ExponentChars(a));
    if pre >= |d| {
      assert d + "" == d;
    } else if pre > 0 {
      assert d[..pre] + d[pre..] == d;
      DigitsBetween(d, 0, pre);
      DigitsBetween(d, pre, |d|);
      assert d[0..pre] == d[..pre] && d[pre..|d|] == d[pre..];
    } else {
      ZerosAreDigits(0 - pre, d);
      ZerosAreDigits(0 - pre + 1, d);
      assert "0" + (ZeroChars(0 - pre) + d) == ZeroChars(0 - pre + 1) + d;
    }
  }

  /** The scientific form denotes exactly the datum: its sign, coefficient and exponent. */
  lemma ScientificMeans(neg: bool, c: nat, e: int)
    ensures var n := Scientific(neg, c, e);
      && n.Proper() && n.Neg() == neg && n.Coefficient() == c && n.Exp() == e
      && (n.exponent != "" <==> Exponential(NumDigits(c), e))
  {
    var d := DigitChars(c);
    DigitCharsFacts(c);
    hide DigitChars, Number, PlainNumeral, NumDigits;
    if Exponential(|d|, e) {
      PlainMeans(neg, d, 1, e + |d| - 1);
      ExponentCharsFacts(e + |d| - 1);
      PlainExponent(neg, d, 1, ExponentChars(e + |d| - 1));
    } else {
      PlainMeans(neg, d, |d| + e, 0);
      PlainExponent(neg, d, |d| + e, "");
    }
  }

  lemma PlainExponent(neg: bool, d: string, pre: int, exponent: string)
    requires d != ""
    ensures PlainNumeral(neg, d, pre, exponent).exponent == exponent
  {
  }

  /** The engineering form denotes the same value, with at most two more digits; a zero keeps its
      exponent; and any exponent written is a multiple of three. */
  lemma EngineeringMeans(neg: bool, c: nat, e: int) returns (k: nat)
    ensures k <= 2 && (c == 0 ==> k == 0) && (k > 0 ==> NumDigits(c) + k <= 3)
    ensures var n := Engineering(neg, c, e);
      && n.Proper() && n.Neg() == neg && n.Coefficient() == c * Pow10(k) && n.Exp() == e - k
      && n.Written() % 3 == 0 && (n.exponent != "" ==> Exponential(NumDigits(c), e))
      && n.exponent == ExponentChars(n.Written())
      && (n.Written() == 0 || -2 <= n.Written() - (e + NumDigits(c) - 1) <= 2)
  {
    var d := DigitChars(c);
    DigitCharsFacts(c);
    Multiples(e + |d| - 1);
    TimesOne(c);
    ZeroDigits(c);
    hide DigitChars, Number, PlainNumeral, NumDigits, Pow10, ExponentChars, Numeral.Proper, Numeral.Neg, Numeral.Coefficient, Numeral.Exp, Numeral.Written, ZeroChars;
    k := 0;
    if !Exponential(|d|, e) {
      PlainMeans(neg, d, |d| + e, 0);
      PlainExponent(neg, d, |d| + e, "");
      ExponentCharsFacts(0);
    } else {
      var adjusted := e + |d| - 1;
      var j := adjusted % 3;
      if c == 0 && j > 0 {
        PlainMeans(neg, d, j - 2, adjusted - j + 3);
        PlainExponent(neg, d, j - 2, ExponentChars(adjusted - j + 3));
      } else {
        k := if 1 + j > |d| then 1 + j - |d| else 0;
        ZerosAreDigits(k, d);
        PlainMeans(neg, d + ZeroChars(k), 1 + j, adjusted - j);
        PlainExponent(neg, d + ZeroChars(k), 1 + j, ExponentChars(adjusted - j));
      }
    }
  }

  lemma Multiples(a: int)
    ensures 0 <= a % 3 <= 2 && (a - a % 3) % 3 == 0 && (a - a % 3 + 3) % 3 == 0
  {
  }

  lemma ZeroDigits(c: nat)
    ensures c == 0 ==> |DigitChars(c)| == 1
  {
  }
}
