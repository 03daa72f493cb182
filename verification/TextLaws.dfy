/** The texts of numbers, infinities and NaNs, character by character: what is read and what is written. */
module TextLaws {
  import opened Powers
  import opened Digits
  import opened Formats
  import opened Sums
  import opened Numerals
  import opened Scanning
  import opened FromString
  import opened Printing
  import opened ToString

  // ---- digits and exponents ----

  /** A digit at the end of a string adds itself to ten times the number before it. */
  lemma OneMoreDigit(s: string, c: char)
    ensures Number("") == 0 && (IsDigit(c) <==> '0' <= c <= '9')
    ensures '0' <= c <= '9' ==> Number(s + [c]) == 10 * Number(s) + (c as int - 48)
  {
    ValuesSnoc(s, c);
    DecSnoc(Values(s), DigitOf(c));
  }

  /** An exponent is an E in either case, a sign if any, and digits; a minus makes it negative. */
  lemma ExponentForms(t: string)
    requires |t| >= 2
    ensures ExponentText(t) <==>
      && (t[0] == 'E' || t[0] == 'e')
      && (if t[1] == '+' || t[1] == '-' then |t| >= 3 && DigitString(t[2..]) else DigitString(t[1..]))
    ensures ExponentValue(t) == if t[1] == '-' then 0 - Number(t[2..]) else if t[1] == '+' then Number(t[2..]) else Number(t[1..])
  {
    hide Number;
  }

  /** A numeral is written as its sign, its digits with a dot among them or not, and its exponent; the dot's place and
      the exponent together give the exponent of the last digit. */
  lemma NumeralReads(n: Numeral)
    requires n.Proper()
    ensures n.Text() == n.sign + n.whole + (if n.dot then "." else "") + n.frac + n.exponent
    ensures n.Neg() <==> n.sign == "-"
    ensures n.Coefficient() == Number(n.whole + n.frac)
    ensures n.Exp() == (if n.exponent == "" then 0 else ExponentValue(n.exponent)) - |n.frac|
    ensures forall s: string :: n.Denotes(s) <==> s == n.Text()
  {
    hide Number, ExponentValue;
    if n.dot {
      assert n.sign + (n.whole + ("." + n.frac)) + n.exponent == n.sign + n.whole + "." + n.frac + n.exponent;
    } else {
      assert n.sign + n.whole + "" + n.frac + n.exponent == n.sign + n.whole + n.exponent;
    }
  }

  // ---- words ----

  /** With capital letters made small. */
  function Lowered(s: string): (t: string)
    ensures |t| == |s|
  {
    seq(|s|, i requires 0 <= i < |s| => if 'A' <= s[i] <= 'Z' then (s[i] as int + 32) as char else s[i])
  }

  lemma SameWord(s: string, lower: string, upper: string)
    requires |lower| == |upper| && forall i :: 0 <= i < |lower| ==> 'a' <= lower[i] <= 'z' && upper[i] as int == lower[i] as int - 32
    ensures Caseless(s, lower, upper) <==> Lowered(s) == lower
  {
    if Caseless(s, lower, upper) {
      forall i | 0 <= i < |s|
        ensures Lowered(s)[i] == lower[i]
      {
      }
    }
    if Lowered(s) == lower {
      forall i | 0 <= i < |s|
        ensures s[i] == lower[i] || s[i] == upper[i]
      {
        assert Lowered(s)[i] == lower[i];
      }
    }
  }

  predicate SignText(sign: string) {
    sign == "" || sign == "+" || sign == "-"
  }

  lemma AfterSign(sign: string, t: string)
    requires SignText(sign) && t != "" && t[0] != '+' && t[0] != '-'
    ensures Unsigned(sign + t) == t && (Negative(sign + t) <==> sign == "-")
  {
    assert sign != "" ==> (sign + t)[0] == sign[0];
  }

  /** Infinities are read from these words, in any case, after an optional sign. */
  lemma InfinityWords(sign: string, t: string)
    requires SignText(sign) && t != "" && t[0] != '+' && t[0] != '-'
    ensures InfinityText(sign + t) <==> Lowered(t) == "inf" || Lowered(t) == "infinity"
  {
    AfterSign(sign, t);
    SameWord(t, "inf", "INF");
    SameWord(t, "infinity", "INFINITY");
    hide Caseless, Unsigned, Lowered;
  }

  /** And become infinite with that sign. */
  lemma InfinityConverted(f: Format, m: Mode, sign: string, t: string, r: DecFloat, s0: set<Flag>, s1: set<Flag>)
    requires f.Valid() && SignText(sign) && (Lowered(t) == "inf" || Lowered(t) == "infinity")
    requires Converted(f, m, sign + t, r, s0, s1)
    ensures r == Infinite(sign == "-") && s1 == s0
  {
    FirstLetter(t, 'i');
    InfinityWords(sign, t);
    AfterSign(sign, t);
    hide Lowered, InfinityText, NaNText;
  }

  lemma FirstLetter(t: string, c: char)
    requires t != "" && 'a' <= c <= 'z' && Lowered(t)[0] == c
    ensures t[0] != '+' && t[0] != '-' && !IsDigit(t[0]) && t[0] != '.'
  {
  }

  /** A NaN is read from nan or snan, in any case, with digits after it that make its payload. */
  lemma NaNWords(sign: string, word: string, digits: string, limit: int)
    requires SignText(sign) && (Lowered(word) == "nan" || Lowered(word) == "snan") && DigitString(digits)
    ensures var s := sign + (word + digits);
      && (NaNText(s, limit) <==> |Significant(digits)| <= limit) && |NaNWord(s)| >= 3 && NaNWord(s)[3..] == digits
      && (SignalingText(s) <==> |word| == 4) && (Negative(s) <==> sign == "-") && !InfinityText(s)
      && forall n: Numeral :: !n.Denotes(s)
  {
    hide Caseless, Significant, Lowered, InfinityText;
    var t, s := word + digits, sign + (word + digits);
    NaNLetters(word);
    assert t[0] == word[0];
    AfterSign(sign, t);
    NoInfinity(sign, t);
    if |word| == 4 {
      SameWord(word[1..], "nan", "NAN");
      assert t[1..][..3] == word[1..] && t[1..][3..] == digits;
    } else {
      SameWord(word, "nan", "NAN");
      assert t[..3] == word && t[3..] == digits;
    }
    NoNumeral(sign, t);
  }

  lemma NaNLetters(word: string)
    requires Lowered(word) == "nan" || Lowered(word) == "snan"
    ensures |word| == (if Lowered(word) == "nan" then 3 else 4) && !IsDigit(word[0]) && !IsSign(word[0]) && word[0] != '.'
    ensures word[0] == 's' || word[0] == 'S' <==> |word| == 4
    ensures |word| == 4 ==> Lowered(word[1..]) == "nan"
    ensures word[0] != 'i' && word[0] != 'I'
  {
    var w := Lowered(word);
    assert w[0] == 'n' || w[0] == 's';
    if |w| == 4 {
      assert w[1] == 'n' && w[2] == 'a' && w[3] == 'n';
      assert Lowered(word[1..]) == w[1..] == "nan";
    }
  }

  lemma NoInfinity(sign: string, t: string)
    requires SignText(sign) && t != "" && t[0] != '+' && t[0] != '-' && t[0] != 'i' && t[0] != 'I'
    ensures !InfinityText(sign + t)
  {
    AfterSign(sign, t);
  }

  lemma NoNumeral(sign: string, t: string)
    requires SignText(sign) && t != "" && !IsDigit(t[0]) && !IsSign(t[0]) && t[0] != '.'
    ensures forall n: Numeral :: !n.Denotes(sign + t)
  {
    forall n: Numeral | n.Denotes(sign + t)
      ensures false
    {
      AfterSign(sign, t);
      TextParts(n);
      MiddleParts(n);
      FirstOfNumber(sign + t, |n.sign|, |n.sign| + |n.Middle()|, DotAt(n));
    }
  }

  lemma FirstOfNumber(s: string, first: nat, c: nat, dot: int)
    requires Mantissa(s, first, c, dot) && c > first
    ensures Unsigned(s) != "" && (IsDigit(Unsigned(s)[0]) || Unsigned(s)[0] == '.')
  {
    MantissaStart(s, first, c, dot);
  }

  /** And becomes a NaN of that sign and kind, when the payload fits; else a conversion error. */
  lemma NaNConverted(f: Format, m: Mode, sign: string, word: string, digits: string, r: DecFloat, s0: set<Flag>, s1: set<Flag>)
    requires f.Valid() && SignText(sign) && (Lowered(word) == "nan" || Lowered(word) == "snan") && DigitString(digits)
    requires Converted(f, m, sign + (word + digits), r, s0, s1)
    ensures if |Significant(digits)| <= f.pmax - 1 then r == NaN(sign == "-", |word| == 4, Number(digits)) && s1 == s0
      else r == NaN(false, false, 0) && s1 == s0 + {ConversionSyntax}
  {
    NaNWords(sign, word, digits, f.pmax - 1);
    hide Lowered, InfinityText, NaNText, Significant, Number, SignalingText, Negative, NaNWord, Numeral.Denotes, DigitString;
  }

  // ---- what is written ----

  lemma SignedWord(neg: bool, w: string, minus: string)
    requires minus == "-" + w
    ensures SignChars(neg) + w == if neg then minus else w
  {
  }

  /** Special values, outright; of a payload only zero is left out. */
  lemma SpecialTexts(neg: bool, signaling: bool, payload: nat, engineering: bool)
    ensures TextOf(Infinite(neg), engineering) == if neg then "-Infinity" else "Infinity"
    ensures payload == 0 ==>
      TextOf(NaN(neg, signaling, payload), engineering) ==
      if neg then (if signaling then "-sNaN" else "-NaN") else if signaling then "sNaN" else "NaN"
    ensures payload > 0 ==>
      TextOf(NaN(neg, signaling, payload), engineering) ==
      (if neg then (if signaling then "-sNaN" else "-NaN") else if signaling then "sNaN" else "NaN") + DigitChars(payload)
  {
    hide DigitChars;
    SignedWord(neg, "Infinity", "-Infinity");
    var w := if signaling then "sNaN" else "NaN";
    SignedWord(neg, w, if signaling then "-sNaN" else "-NaN");
    if payload == 0 {
      assert SignChars(neg) + w + "" == SignChars(neg) + w;
    }
  }

  /** The scientific form (to-scientific-string): without an exponent when the exponent is not positive and the
      adjusted one at least -6, with a dot where the digits of a fraction begin; else one digit, a dot if more follow,
      and the adjusted exponent with its sign. */
  lemma ScientificShape(neg: bool, c: nat, e: int)
    ensures var n, adjusted := Scientific(neg, c, e), e + NumDigits(c) - 1;
      && n.sign == (if neg then "-" else "") && n.whole != ""
      && (e <= 0 && adjusted >= -6 ==>
            n.exponent == "" && |n.frac| == 0 - e && (n.dot <==> e < 0) && (n.whole == "0" || n.whole[0] != '0'))
      && (e > 0 || adjusted < -6 ==>
            && |n.whole| == 1 && |n.frac| == NumDigits(c) - 1 && (n.dot <==> NumDigits(c) > 1)
            && n.exponent == "E" + (if adjusted < 0 then "-" else "+") + DigitChars(Magnitude(adjusted)))
  {
    DigitCharsFacts(c);
    hide DigitChars, NumDigits, Number;
    SmallDigits(c);
  }

  lemma SmallDigits(c: nat)
    ensures c == 0 ==> DigitChars(c) == "0"
  {
  }

  /** The engineering form: the same without an exponent; else an exponent that is a multiple of three, and one to three
      digits before the dot, the first no zero unless the number is zero. */
  lemma EngineeringShape(neg: bool, c: nat, e: int)
    ensures var n, adjusted := Engineering(neg, c, e), e + NumDigits(c) - 1;
      && (e <= 0 && adjusted >= -6 ==> n == Scientific(neg, c, e))
      && (e > 0 || adjusted < -6 ==>
            && n.sign == (if neg then "-" else "") && 1 <= |n.whole| <= 3 && (n.whole[0] == '0' ==> c == 0) && (c == 0 ==> n.whole == "0")
            && n.Proper() && n.Written() % 3 == 0
            && n.exponent == (if n.Written() == 0 then "" else
                 "E" + (if n.Written() < 0 then "-" else "+") + DigitChars(Magnitude(n.Written()))))
  {
    var k := EngineeringMeans(neg, c, e);
    DigitCharsFacts(c);
    hide DigitChars, NumDigits, Number, Numeral.Proper, Numeral.Written;
    SmallDigits(c);
  }
}
