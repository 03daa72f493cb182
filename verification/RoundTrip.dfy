/** The parser undoes the printers. */
module RoundTrip {
  import opened Powers
  import opened Formats
  import opened Rounding
  import opened Integers
  import opened StandIns
  import opened Sums
  import opened Quantize
  import opened Numerals
  import opened Scanning
  import opened FromString
  import opened Printing
  import opened ToString

  /** An exponent of at most as many digits as the parser reads is read as it is written. */
  lemma SmallExponentRead(f: Format, n: Numeral, a: int)
    requires n.Proper() && n.exponent == ExponentChars(a) && NumDigits(Magnitude(a)) <= EmaxD(f)
    ensures ExpRead(f, n) == n.Exp() && Accurate(f, n)
  {
    ExponentCharsFacts(a);
    DigitCharsFacts(Magnitude(a));
    SignificantPart(DigitChars(Magnitude(a)));
    hide DigitChars, NumDigits, EmaxD, ExponentChars, Number, DigitString, Significant;
  }

  lemma FewDigits(f: Format, a: int)
    requires Printable(f) && f.Qtiny() - 2 <= a <= f.emax + 2
    ensures NumDigits(Magnitude(a)) <= EmaxD(f)
  {
    hide NumDigits, EmaxD, Pow10;
    DigitsAtMost(Magnitude(a), NumDigits(2 - f.Qtiny()));
  }

  /** A dot is always followed by a digit. */
  lemma PlainNotEmptied(f: Format, neg: bool, d: string, pre: int, exponent: string)
    requires d != ""
    ensures !Emptied(f, PlainNumeral(neg, d, pre, exponent))
  {
  }

  /** What the scientific form is read as. */
  lemma ScientificRead(f: Format, neg: bool, c: nat, e: int)
    requires Printable(f) && c < Pow10(f.pmax) && f.Qtiny() <= e <= f.Qmax()
    ensures var n := Scientific(neg, c, e);
      n.Proper() && n.Neg() == neg && n.Coefficient() == c && ExpRead(f, n) == e && !Emptied(f, n)
  {
    hide *;
    var d := DigitChars(c);
    ScientificMeans(neg, c, e);
    ScientificCases(neg, c, e);
    ExponentsInRange(f, neg, c, e);
    DigitsOf(c);
    var a := if e > 0 || |d| + e < -5 then |d| + e - 1 else 0;
    var pre := if e > 0 || |d| + e < -5 then 1 else |d| + e;
    FewDigits(f, a);
    PlainExponent(neg, d, pre, ExponentChars(a));
    PlainNotEmptied(f, neg, d, pre, ExponentChars(a));
    SmallExponentRead(f, Scientific(neg, c, e), a);
  }

  lemma ExponentsInRange(f: Format, neg: bool, c: nat, e: int)
    requires Printable(f) && c < Pow10(f.pmax) && f.Qtiny() <= e <= f.Qmax()
    ensures f.Qtiny() <= e + NumDigits(c) - 1 <= f.emax && f.Qtiny() <= 0 <= f.emax && f.Valid()
  {
    DigitsAtMost(c, f.pmax);
    hide Pow10, NumDigits;
  }

  lemma EngineeringNotEmptied(f: Format, neg: bool, c: nat, e: int)
    ensures !Emptied(f, Engineering(neg, c, e))
  {
    hide *;
    var d := DigitChars(c);
    var a := e + |d| - 1;
    var k := a % 3;
    EngineeringCases(neg, c, e);
    if !(e > 0 || |d| + e < -5) {
      PlainNotEmptied(f, neg, d, |d| + e, ExponentChars(0));
    } else if c == 0 && k > 0 {
      PlainNotEmptied(f, neg, d, k - 2, ExponentChars(a - k + 3));
    } else {
      PlainNotEmptied(f, neg, d + ZeroChars(if 1 + k > |d| then 1 + k - |d| else 0), 1 + k, ExponentChars(a - k));
    }
  }

  /** The engineering form is read with up to two more digits; the exponent goes down to match. */
  lemma EngineeringRead(f: Format, neg: bool, c: nat, e: int) returns (k: nat)
    requires Printable(f) && c < Pow10(f.pmax) && f.Qtiny() <= e <= f.Qmax()
    ensures k <= 2 && (c == 0 ==> k == 0) && (k > 0 ==> NumDigits(c) + k <= 3)
    ensures var n := Engineering(neg, c, e);
      n.Proper() && n.Neg() == neg && n.Coefficient() == c * Pow10(k) && ExpRead(f, n) == e - k && !Emptied(f, n)
  {
    hide *;
    k := EngineeringMeans(neg, c, e);
    ExponentsInRange(f, neg, c, e);
    var n := Engineering(neg, c, e);
    FewDigits(f, n.Written());
    EngineeringNotEmptied(f, neg, c, e);
    SmallExponentRead(f, n, n.Written());
  }

  // ---- numbers ----

  /** Scientific form, read back, is the very datum. */
  lemma FiniteReadsBack(f: Format, m: Mode, x: DecFloat, r: DecFloat, s0: set<Flag>, s1: set<Flag>)
    requires Printable(f) && x.Finite? && x.Fits(f) && Converted(f, m, TextOf(x, false), r, s0, s1)
    ensures r == x && s1 == s0
  {
    hide *;
    InRange(f, x);
    ScientificRead(f, x.neg, x.coef, x.exp);
    TextIsScientific(x);
    ConvertedTo(f, m, Scientific(x.neg, x.coef, x.exp), r, s0, s1);
    ExactFits(f, m, x.neg, x.coef, x.exp, r, s0, s1);
  }

  /** A coefficient with zeros moved below the least exponent is brought back. */
  lemma BelowLeast(f: Format, m: Mode, neg: bool, M: nat, C: nat, q: int, r: DecFloat, s0: set<Flag>, s1: set<Flag>)
    requires f.Valid() && q < f.Qtiny() && M < Pow10(f.pmax) && C == M * Pow10(f.Qtiny() - q)
    requires Rounded(f, m, ExactOf(f, neg, C, 1, q), r, s0, s1)
    ensures r == Finite(neg, M, f.Qtiny()) && s1 == s0
  {
    var y := Exact(neg, M, 1, q - f.Qtiny());
    assert ExactOf(f, neg, C, 1, q) == Exact(neg, C, 1 * Pow10(f.Qtiny() - q), q - f.Qtiny());
    RoundedCross(f, m, y, ExactOf(f, neg, C, 1, q), r, s0, s1);
    var j: nat :| Quantum(f, y, j) && r == Finish(f, m, y, j).df && s1 == s0 + Finish(f, m, y, j).flags;
    IntegerAtLeast(f, m, neg, M, q - f.Qtiny());
    hide Quantum, Finish, Pow10, ExactOf;
    QuantumUnique(f, y, j, 0);
  }

  lemma IntegerAtLeast(f: Format, m: Mode, neg: bool, M: nat, i: int)
    requires f.Valid() && M < Pow10(f.pmax) && i < 0
    ensures var y := Exact(neg, M, 1, i);
      Quantum(f, y, 0) && Finish(f, m, y, 0) == Outcome(Finite(neg, M, f.Qtiny()), {})
  {
    var y := Exact(neg, M, 1, i);
    assert Pow10(0) == 1 && M % 1 == 0 && RoundInt(m, neg, M, 1) == M;
    hide Pow10, RoundInt;
    ClampFits(f, m, neg, M, 0, {});
  }

  /** Engineering form is read as a coefficient with up to two zeros added. */
  lemma EngineeringRounded(f: Format, m: Mode, x: DecFloat, r: DecFloat, s0: set<Flag>, s1: set<Flag>) returns (k: nat)
    requires Printable(f) && x.Finite? && x.Fits(f) && Converted(f, m, TextOf(x, true), r, s0, s1)
    ensures k <= 2 && (x.coef == 0 ==> k == 0) && (k > 0 ==> NumDigits(x.coef) + k <= 3)
    ensures Rounded(f, m, ExactOf(f, x.neg, Shifted(x.coef, k), 1, x.exp - k), r, s0, s1)
  {
    hide *;
    InRange(f, x);
    k := EngineeringRead(f, x.neg, x.coef, x.exp);
    var n := Engineering(x.neg, x.coef, x.exp);
    TextIsScientific(x);
    ConvertedTo(f, m, n, r, s0, s1);
    ShiftedIs(x.coef, k);
  }

  lemma InRange(f: Format, x: DecFloat)
    requires Printable(f) && x.Finite? && x.Fits(f)
    ensures f.Valid() && f.pmax >= 4 && x.coef < Pow10(f.pmax) && f.Qtiny() <= x.exp <= f.Qmax()
  {
  }

  lemma ShiftedIs(c: nat, k: nat)
    ensures Shifted(c, k) == c * Pow10(k)
  {
  }

  /** Adding zeros changes neither what is rounded nor, but for where it lies, the result. */
  lemma LongerReadsBack(f: Format, m: Mode, x: DecFloat, k: nat, r: DecFloat, s0: set<Flag>, s1: set<Flag>)
    requires f.Valid() && f.pmax >= 4 && x.Finite? && x.Fits(f)
    requires k <= 2 && (x.coef == 0 ==> k == 0) && (k > 0 ==> NumDigits(x.coef) + k <= 3)
    requires Rounded(f, m, ExactOf(f, x.neg, Shifted(x.coef, k), 1, x.exp - k), r, s0, s1)
    ensures s1 == s0 && r.Finite? && r.neg == x.neg && r.exp <= x.exp && r.coef == Shifted(x.coef, x.exp - r.exp)
    ensures k == 0 ==> r == x
  {
    assert x.coef < Pow10(f.pmax) && f.Qtiny() <= x.exp <= f.Qmax();
    LengthenedFits(f.pmax, x.coef, k);
    hide ExactOf, Rounded, Pow10, NumDigits, Shifted;
    ShiftedByNone(x.coef);
    if x.exp - k >= f.Qtiny() {
      ExactFits(f, m, x.neg, Shifted(x.coef, k), x.exp - k, r, s0, s1);
    } else {
      var t := x.exp - f.Qtiny();
      LengthenedFits(f.pmax, x.coef, t);
      ShiftedAgain(x.coef, t, k - t);
      BelowLeast(f, m, x.neg, Shifted(x.coef, t), Shifted(x.coef, k), x.exp - k, r, s0, s1);
    }
  }

  lemma ShiftedByNone(c: nat)
    ensures Shifted(c, 0) == c
  {
  }

  lemma ShiftedAgain(c: nat, t: nat, u: nat)
    ensures Shifted(c, t + u) == Shifted(c, t) * Pow10(u)
  {
    Pow10Add(t, u);
    MulAssoc(c, Pow10(t), Pow10(u));
  }

  lemma LengthenedFits(pmax: nat, c: nat, k: nat)
    requires pmax >= 4 && c < Pow10(pmax) && (k == 0 || NumDigits(c) + k <= 4)
    ensures Shifted(c, k) < Pow10(pmax)
  {
    ShiftedByNone(c);
    hide Pow10, NumDigits;
    if k > 0 {
      Pow10Add(NumDigits(c), k);
      MulLt(c, Pow10(NumDigits(c)), Pow10(k));
      Pow10Monotone(NumDigits(c) + k, pmax);
    }
  }

  /** Engineering form, read back, is the same number, sign included, and nothing is signaled; a zero
      keeps its exponent. */
  lemma EngineeringReadsBack(f: Format, m: Mode, x: DecFloat, r: DecFloat, s0: set<Flag>, s1: set<Flag>)
    requires Printable(f) && x.Finite? && x.Fits(f) && Converted(f, m, TextOf(x, true), r, s0, s1)
    ensures r.Finite? && r.neg == x.neg && SameValue(x, r) && s1 == s0
    ensures x.coef == 0 ==> r == x
  {
    hide *;
    InRange(f, x);
    var k := EngineeringRounded(f, m, x, r, s0, s1);
    LongerReadsBack(f, m, x, k, r, s0, s1);
    ShiftedSameValue(x, r);
  }

  lemma ShiftedSameValue(x: DecFloat, r: DecFloat)
    requires x.Finite? && r.Finite? && r.exp <= x.exp && r.coef == Shifted(x.coef, x.exp - r.exp)
    ensures SameValue(x, r)
  {
  }

  // ---- infinities and NaNs ----

  lemma InfinityReadsBack(neg: bool)
    ensures var s := TextOf(Infinite(neg), false);
      InfinityText(s) && Negative(s) == neg
  {
    var s := TextOf(Infinite(neg), false);
    assert Unsigned(s) == "Infinity";
  }

  lemma NaNReadsBack(f: Format, neg: bool, signaling: bool, p: nat)
    requires f.Valid() && p < Pow10(f.pmax - 1)
    ensures var s := TextOf(NaN(neg, signaling, p), false);
      NaNText(s, f.pmax - 1) && Negative(s) == neg && SignalingText(s) == signaling && Payload(s) == p
  {
    hide *;
    var w, letters := Written(p), if signaling then "sNaN" else "NaN";
    PayloadRead(f, p);
    NaNTextIs(neg, signaling, p);
    JoinThree(SignChars(neg), letters, w);
    WordAfterSign(neg, letters + w);
    NaNParts(SignChars(neg) + (letters + w), signaling, w, f.pmax - 1);
  }

  lemma NaNTextIs(neg: bool, signaling: bool, p: nat)
    ensures TextOf(NaN(neg, signaling, p), false) == (SignChars(neg) + (if signaling then "sNaN" else "NaN")) + Written(p)
  {
  }

  lemma NaNParts(s: string, signaling: bool, w: string, digits: int)
    requires Unsigned(s) == (if signaling then "sNaN" else "NaN") + w
    requires DigitString(w) && |Significant(w)| <= digits
    ensures NaNText(s, digits) && SignalingText(s) == signaling && Payload(s) == Number(w)
  {
    NaNAfterSignal(w);
    hide Significant, DigitString, Number;
    assert signaling ==> Unsigned(s)[0] == 's';
    assert !signaling ==> Unsigned(s)[0] == 'N';
    assert NaNWord(s) == "NaN" + w;
  }

  lemma WordAfterSign(neg: bool, w: string)
    requires w != "" && w[0] != '+' && w[0] != '-'
    ensures Unsigned(SignChars(neg) + w) == w && (Negative(SignChars(neg) + w) <==> neg)
  {
    assert !neg ==> SignChars(neg) + w == w;
    assert neg ==> ("-" + w)[1..] == w;
  }

  lemma NaNAfterSignal(w: string)
    ensures ("sNaN" + w)[1..] == "NaN" + w && ("NaN" + w)[..3] == "NaN" && ("NaN" + w)[3..] == w
  {
  }

  lemma PayloadRead(f: Format, p: nat)
    requires f.Valid() && p < Pow10(f.pmax - 1)
    ensures DigitString(Written(p)) && Number(Written(p)) == p && |Significant(Written(p))| <= f.pmax - 1
  {
    DigitCharsFacts(p);
    SignificantPart(Written(p));
    DigitsAtMost(p, f.pmax - 1);
    assert Values("") == [];
  }

  // ---- the theorem ----

  /** For every datum the parser turns the printed text back into the datum, and sets no flag. */
  lemma ParserUndoesPrinter(f: Format, m: Mode, x: DecFloat, r: DecFloat, s0: set<Flag>, s1: set<Flag>)
    requires Printable(f) && x.Fits(f) && Converted(f, m, TextOf(x, false), r, s0, s1)
    ensures r == x && s1 == s0
  {
    match x
    case Finite(_, _, _) => FiniteReadsBack(f, m, x, r, s0, s1);
    case Infinite(neg) => InfinityReadsBack(neg);
    case NaN(neg, signaling, p) => NaNReadsBack(f, neg, signaling, p);
  }

  lemma PrintedIsWhole(f: Format, x: DecFloat)
    requires Printable(f) && x.Fits(f)
    ensures !EmptiedText(f, TextOf(x, false))
  {
    forall n: Numeral | n.Denotes(TextOf(x, false))
      ensures !Emptied(f, n)
    {
      hide *;
      if x.Finite? {
        InRange(f, x);
        TextIsScientific(x);
        ScientificRead(f, x.neg, x.coef, x.exp);
        SameText(n, Scientific(x.neg, x.coef, x.exp));
      } else {
        SpecialText(f, x);
        NumberNotSpecial(TextOf(x, false), n, f.pmax - 1);
      }
    }
  }

  lemma SameText(n: Numeral, n': Numeral)
    requires n.Denotes(n'.Text()) && n'.Proper()
    ensures n == n'
  {
    Unambiguous(n, n');
  }

  lemma SpecialText(f: Format, x: DecFloat)
    requires f.Valid() && !x.Finite? && x.Fits(f)
    ensures InfinityText(TextOf(x, false)) || NaNText(TextOf(x, false), f.pmax - 1)
  {
    match x
    case Infinite(neg) => InfinityReadsBack(neg);
    case NaN(neg, signaling, p) => NaNReadsBack(f, neg, signaling, p);
  }

  /** Printing and parsing, one after the other: the datum comes back in any rounding mode, with no flag set. */
  method PrintAndParse(f: Format, x: DecFloat, set_: Context) returns (r: DecFloat)
    requires Printable(f) && x.Fits(f)
    modifies set_`status
    ensures r == x && set_.status == old(set_.status)
  {
    PrintedIsWhole(f, x);
    assert StringLength(f) <= 200 && f.Valid() && Textual(f);
    hide *;
    var str := new char[StringLength(f)];
    var len := DecFloatToString(f, x, str);
    ghost var m, s0 := set_.round, set_.status;
    r := DecFloatFromString(f, str[..len], set_);
    ParserUndoesPrinter(f, m, x, r, s0, set_.status);
  }
}
