/** Where the parser is not correctly rounded: an exponent with too many digits is replaced by twice
    emax, which a coefficient with enough digits can bring back into range. */
module ReadLimits {
  import opened Powers
  import opened Digits
  import opened Formats
  import opened Rounding
  import opened Integers
  import opened Numerals
  import opened Scanning
  import opened LongText
  import opened FromString
  import opened Printing

  /** The number one, written as .000...01E+1000...0 with the last digit in place 10^EmaxD. */
  function FarOne(f: Format): Numeral {
    var places := Pow10(EmaxD(f));
    Numeral("", "", true, ZeroChars(places - 1) + "1", ExponentChars(places))
  }

  lemma FarOneMeans(f: Format)
    ensures var n := FarOne(f);
      n.Proper() && !n.Neg() && n.Coefficient() == 1 && n.Exp() == 0 && |n.frac| == Pow10(EmaxD(f)) && n.Written() == Pow10(EmaxD(f))
  {
    var n, places := FarOne(f), Pow10(EmaxD(f));
    ExponentCharsFacts(places);
    ZerosAreDigits(places - 1, "1");
    assert "" + n.frac == n.frac;
    assert Values("1") == [1];
    DecOne(1);
    hide Pow10, EmaxD, ExponentChars, ZeroChars, DigitChars, Dec, Values;
  }

  /** Its exponent has one digit too many, so it is read as twice emax. */
  lemma FarOneRead(f: Format)
    ensures FarOne(f).Proper() && ExpRead(f, FarOne(f)) == 2 * f.emax - Pow10(EmaxD(f)) && !Emptied(f, FarOne(f))
  {
    FarOneMeans(f);
    TooLongRead(f);
    hide Pow10, EmaxD, ExponentChars, ZeroChars, ExponentRead;
    assert FarOne(f).exponent == ExponentChars(Pow10(EmaxD(f)));
  }

  lemma TooLongRead(f: Format)
    ensures var t := ExponentChars(Pow10(EmaxD(f)));
      ExponentText(t) && ExponentRead(f, t) == 2 * f.emax
  {
    var places, k := Pow10(EmaxD(f)), EmaxD(f);
    var d := DigitChars(places);
    ExponentCharsFacts(places);
    DigitCharsFacts(places);
    NoZerosInFront(d);
    OneMoreDigit(k);
    hide Pow10, EmaxD, DigitChars, NumDigits, Significant, Number, DigitString;
    assert ExponentChars(places)[1] == '+';
  }

  lemma OneMoreDigit(k: nat)
    ensures NumDigits(Pow10(k)) == k + 1
  {
    NumDigitsUnique(Pow10(k), k + 1);
  }

  lemma NoZerosInFront(d: string)
    requires d != "" && d[0] != '0'
    ensures Significant(d) == d
  {
  }

  /** Whatever correct rounding makes of the exponent as read, it is not what the text denotes. */
  lemma FarOneMisread(f: Format, m: Mode, r: DecFloat, s0: set<Flag>, s1: set<Flag>)
    requires f in {DOUBLE, QUAD} && FarOne(f).Proper() && Converted(f, m, FarOne(f).Text(), r, s0, s1)
    ensures r == Finite(false, 1, 2 * f.emax - Pow10(EmaxD(f))) && s1 == s0
    ensures !Rounded(f, m, ExactOf(f, false, FarOne(f).Coefficient(), 1, FarOne(f).Exp()), r, s0, s1)
  {
    hide *;
    FarOneRead(f);
    FarOneMeans(f);
    Sizes(f);
    ConvertedTo(f, m, FarOne(f), r, s0, s1);
    ExactFits(f, m, false, 1, 2 * f.emax - Pow10(EmaxD(f)), r, s0, s1);
    if Rounded(f, m, ExactOf(f, false, 1, 1, 0), r, s0, s1) {
      ExactFits(f, m, false, 1, 0, r, s0, s1);
    }
  }

  /** One zero more than fits the buffer, and a dot: a text of the value zero that loses all its digits. */
  lemma ManyZeros(f: Format)
    requires Textual(f)
    ensures var n := Numeral("", ZeroChars(Room(f) + 1), true, "", "");
      n.Proper() && n.Coefficient() == 0 && n.Exp() == 0 && EmptiedText(f, n.Text())
  {
    var z := ZeroChars(Room(f) + 1);
    var n := Numeral("", z, true, "", "");
    assert n.whole + n.frac == z && z[0] == '0';
    NumberIsZero(z);
    assert n.Proper() && Emptied(f, n);
    assert n.Denotes(n.Text());
    hide Number;
  }

  lemma Sizes(f: Format)
    requires f in {DOUBLE, QUAD}
    ensures f.Valid() && 1 < Pow10(f.pmax) && f.Qtiny() <= 0 <= f.Qmax() && f.Qtiny() <= 2 * f.emax - Pow10(EmaxD(f)) <= f.Qmax() && 2 * f.emax != Pow10(EmaxD(f))
  {
    assert Pow10(2) == 100 && Pow10(3) == 1000 && Pow10(4) == 10000;
    NumDigitsUnique(398, 3);
    NumDigitsUnique(6176, 4);
    Pow10Grows(0, f.pmax);
  }
}
