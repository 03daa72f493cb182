/** When two coefficients that both lose digits round alike in every mode. */
module CutAlike {
  import opened Powers
  import opened Formats
  import opened Rounding
  import opened Integers
  import opened Meaning
  import opened Existence
  import opened FarExponents

  /** The digits dropped. */
  function Dropped(f: Format, c: nat, e: int): nat {
    Max(0, Drop(f, NumDigits(c), e))
  }

  /** What is kept of a coefficient, and what is cut off. */
  function KeptPart(f: Format, c: nat, e: int): nat {
    Quotient(c, Pow10(Dropped(f, c, e)))
  }

  function CutPart(f: Format, c: nat, e: int): nat {
    c % Pow10(Dropped(f, c, e))
  }

  /** How what is cut off compares with half a unit of what is kept. */
  function Side(f: Format, c: nat, e: int): int {
    Order(2 * CutPart(f, c, e), Pow10(Dropped(f, c, e)))
  }

  function Order(a: int, b: int): int {
    if a < b then -1 else if a == b then 0 else 1
  }

  /** The exponent of what is kept, counted from the least. */
  function Place(f: Format, c: nat, e: int): int {
    e + Dropped(f, c, e) - f.Qtiny()
  }

  /** Something is cut off both, what is kept is the same number at the same exponent, and what is cut off
      lies on the same side of a half. */
  predicate SameCut(f: Format, c: nat, e: int, c': nat, e': int) {
    && CutPart(f, c, e) != 0 && CutPart(f, c', e') != 0
    && Place(f, c, e) == Place(f, c', e') && KeptPart(f, c, e) == KeptPart(f, c', e')
    && Side(f, c, e) == Side(f, c', e')
  }

  /** Whatever correct rounding makes of the second number it makes of the first, in every mode. */
  ghost predicate NumbersAlike(f: Format, neg: bool, c: nat, e: int, c': nat, e': int)
    requires f.Valid()
  {
    forall m: Mode, r: DecFloat, s1: set<Flag> ::
      Rounded(f, m, ExactOf(f, neg, c', 1, e'), r, {}, s1) ==> Rounded(f, m, ExactOf(f, neg, c, 1, e), r, {}, s1)
  }

  // ---- rounding in terms of the cut ----

  function RoundedKept(f: Format, m: Mode, neg: bool, c: nat, e: int): nat {
    RoundInt(m, neg, c, Pow10(Dropped(f, c, e)))
  }

  function Result(f: Format, m: Mode, neg: bool, c: nat, e: int): Outcome
    requires f.Valid()
  {
    PlaceNat(f, c, e);
    Finish(f, m, ExactOf(f, neg, c, 1, e), Place(f, c, e))
  }

  lemma PlaceNat(f: Format, c: nat, e: int)
    ensures Place(f, c, e) >= 0
  {
  }

  /** Rounding has one outcome, the one at the place where the digits are cut. */
  lemma RoundedIs(f: Format, m: Mode, neg: bool, c: nat, e: int, r: DecFloat, s: set<Flag>)
    requires f.Valid()
    ensures Rounded(f, m, ExactOf(f, neg, c, 1, e), r, {}, s) <==> r == Result(f, m, neg, c, e).df && s == Result(f, m, neg, c, e).flags
  {
    var x, j: nat := ExactOf(f, neg, c, 1, e), Place(f, c, e);
    CutQuantum(f, neg, c, e);
    hide Pow10, Finish, Quantum, ExactOf, Place;
    forall i: nat | Quantum(f, x, i)
      ensures i == j
    {
      QuantumUnique(f, x, i, j);
    }
    assert {} + Result(f, m, neg, c, e).flags == Result(f, m, neg, c, e).flags;
  }

  lemma CutQuantum(f: Format, neg: bool, c: nat, e: int)
    requires f.Valid()
    ensures Place(f, c, e) >= 0 && Quantum(f, ExactOf(f, neg, c, 1, e), Place(f, c, e))
  {
    assert c < 10 ==> NumDigits(c) == 1;
    hide Pow10, ExactOf, Quantum;
    DropIsQuantum(f, neg, c, e, NumDigits(c));
  }

  /** The outcome keeps the value of what is rounded, or overflows. */
  lemma Outcomes(f: Format, m: Mode, neg: bool, c: nat, e: int)
    requires f.Valid()
    ensures var x, j: nat, k, o := ExactOf(f, neg, c, 1, e), Place(f, c, e), RoundedKept(f, m, neg, c, e), Result(f, m, neg, c, e);
      && (IntegralAt(x, j) <==> CutPart(f, c, e) == 0)
      && (k * Pow10(j) < Pow10(f.pmax + f.Top()) ==> o.df.Finite? && o.df.Fits(f) && Units(f, o.df) == k * Pow10(j) && o.flags == RoundFlags(f, x, j))
      && (k * Pow10(j) >= Pow10(f.pmax + f.Top()) ==> Overflow in o.flags)
      && Overflow !in RoundFlags(f, x, j) && (Inexact in RoundFlags(f, x, j) <==> !IntegralAt(x, j))
  {
    var x, j: nat := ExactOf(f, neg, c, 1, e), Place(f, c, e);
    CutQuantum(f, neg, c, e);
    assert c < 10 ==> NumDigits(c) == 1;
    assert FitsAt(f, x, j);
    hide Pow10, ExactOf, Quantum, RoundInt, Finish;
    RoundCoarser(f, m, neg, c, 1, e, e + Dropped(f, c, e));
    FinishKeeps(f, m, x, j);
  }

  // ---- the same cut rounds alike ----

  lemma OneMore(q: nat, p: nat)
    ensures (q + 1) * p == q * p + p
  {
  }

  lemma ShortQuotient(c: nat, len: nat, d: nat, n: nat)
    requires c < Pow10(len) && len <= d + n
    ensures c / Pow10(d) < Pow10(n)
  {
    var q, p := c / Pow10(d), Pow10(d);
    DivModFact(c, p);
    hide Pow10;
    Pow10Add(n, d);
    Pow10Monotone(len, n + d);
    CancelLt(q, Pow10(n), p);
  }

  lemma LongQuotient(c: nat, len: nat, d: nat, n: nat)
    requires len >= 1 && Pow10(len - 1) <= c && n + d <= len - 1
    ensures c / Pow10(d) >= Pow10(n)
  {
    var q, p := c / Pow10(d), Pow10(d);
    DivModFact(c, p);
    hide Pow10;
    Pow10Add(n, d);
    Pow10Monotone(n + d, len - 1);
    OneMore(q, p);
    CancelLt(Pow10(n), q + 1, p);
  }

  lemma SomethingDropped(f: Format, c: nat, e: int)
    requires CutPart(f, c, e) != 0
    ensures c > 0 && Dropped(f, c, e) >= 1 && Dropped(f, c, e) == Drop(f, NumDigits(c), e)
  {
    assert Pow10(0) == 1 && c % 1 == 0;
  }

  /** What is kept has at most pmax digits, and exactly pmax above the least exponent. */
  lemma KeptDigits(f: Format, c: nat, e: int)
    requires f.Valid() && CutPart(f, c, e) != 0
    ensures KeptPart(f, c, e) < Pow10(f.pmax)
    ensures Place(f, c, e) > 0 ==> KeptPart(f, c, e) >= Pow10(f.pmax - 1)
  {
    var len, d := NumDigits(c), Dropped(f, c, e);
    SomethingDropped(f, c, e);
    assert c < Pow10(len) && Pow10(len - 1) <= c;
    hide Pow10, NumDigits;
    ShortQuotient(c, len, d, f.pmax);
    if Place(f, c, e) > 0 {
      LongQuotient(c, len, d, f.pmax - 1);
    }
  }

  /** Tiny before rounding, told from what is kept. */
  lemma TinyByCut(f: Format, neg: bool, c: nat, e: int)
    requires f.Valid() && CutPart(f, c, e) != 0
    ensures var x := ExactOf(f, neg, c, 1, e);
      x.num < x.den * Pow10(f.pmax - 1) <==> Place(f, c, e) == 0 && KeptPart(f, c, e) < Pow10(f.pmax - 1)
  {
    var len, d := NumDigits(c), Dropped(f, c, e);
    SomethingDropped(f, c, e);
    assert c < Pow10(len) && Pow10(len - 1) <= c;
    hide Pow10, NumDigits, ExactOf;
    TinyByExponent(f, neg, c, e, len);
    KeptDigits(f, c, e);
    if len <= f.pmax - 1 + d {
      ShortQuotient(c, len, d, f.pmax - 1);
    } else {
      LongQuotient(c, len, d, f.pmax - 1);
    }
  }

  /** Rounding sees no more of what is cut off than its side of a half. */
  lemma AwayBySide(m: Mode, neg: bool, q: nat, r: nat, d: nat, r': nat, d': nat)
    requires Order(2 * r, d) == Order(2 * r', d')
    ensures Away(m, neg, q, r, d) == Away(m, neg, q, r', d')
  {
  }

  lemma FlagsOf(f: Format, neg: bool, c: nat, e: int)
    requires f.Valid() && CutPart(f, c, e) != 0
    ensures Place(f, c, e) >= 0
    ensures RoundFlags(f, ExactOf(f, neg, c, 1, e), Place(f, c, e)) ==
      if Place(f, c, e) == 0 && KeptPart(f, c, e) < Pow10(f.pmax - 1) then {Inexact, Underflow} else {Inexact}
  {
    TinyByCut(f, neg, c, e);
    Outcomes(f, Down, neg, c, e);
    PlaceNat(f, c, e);
    hide Pow10, ExactOf, Place, KeptPart, CutPart, Result, IntegralAt, RoundedKept;
  }

  function Carried(f: Format, m: Mode, neg: bool, k: nat, j: nat, flags: set<Flag>): Outcome
    requires f.Valid()
  {
    if k == Pow10(f.pmax) then Clamp(f, m, neg, Pow10(f.pmax - 1), j + 1, flags) else Clamp(f, m, neg, k, j, flags)
  }

  lemma ResultIs(f: Format, m: Mode, neg: bool, c: nat, e: int)
    requires f.Valid()
    ensures Place(f, c, e) >= 0
    ensures Result(f, m, neg, c, e) ==
      Carried(f, m, neg, RoundedKept(f, m, neg, c, e), Place(f, c, e), RoundFlags(f, ExactOf(f, neg, c, 1, e), Place(f, c, e)))
  {
    assert c < 10 ==> NumDigits(c) == 1;
    hide Pow10, NumDigits, ExactOf, Finish, RoundFlags, Quantum, Clamp, RoundInt;
    DropRounds(f, m, neg, c, e, NumDigits(c));
  }

  lemma SameRounded(f: Format, m: Mode, neg: bool, c: nat, e: int, c': nat, e': int)
    requires SameCut(f, c, e, c', e')
    ensures RoundedKept(f, m, neg, c, e) == RoundedKept(f, m, neg, c', e')
  {
    hide Pow10, Dropped;
    AwayBySide(m, neg, KeptPart(f, c, e), CutPart(f, c, e), Pow10(Dropped(f, c, e)), CutPart(f, c', e'), Pow10(Dropped(f, c', e')));
  }

  lemma SameCutSameResult(f: Format, m: Mode, neg: bool, c: nat, e: int, c': nat, e': int)
    requires f.Valid() && SameCut(f, c, e, c', e')
    ensures Result(f, m, neg, c, e) == Result(f, m, neg, c', e')
  {
    assert CutPart(f, c, e) != 0 && CutPart(f, c', e') != 0;
    assert Place(f, c, e) == Place(f, c', e') && KeptPart(f, c, e) == KeptPart(f, c', e');
    SameRounded(f, m, neg, c, e, c', e');
    hide Pow10, ExactOf, RoundFlags, Carried, Result, Place, KeptPart, CutPart, RoundedKept;
    FlagsOf(f, neg, c, e);
    FlagsOf(f, neg, c', e');
    ResultIs(f, m, neg, c, e);
    ResultIs(f, m, neg, c', e');
  }

  // ---- others do not ----

  /** A significand that is kept within range, and one that is greater by one, have different outcomes. */
  lemma NextDiffers(f: Format, m: Mode, neg: bool, c: nat, e: int, c': nat, e': int)
    requires f.Valid() && Place(f, c, e) == Place(f, c', e')
    requires RoundedKept(f, m, neg, c', e') == RoundedKept(f, m, neg, c, e) + 1
    requires Place(f, c, e) >= 0 && RoundedKept(f, m, neg, c, e) * Pow10(Place(f, c, e)) < Pow10(f.pmax + f.Top())
    ensures Result(f, m, neg, c, e) != Result(f, m, neg, c', e')
  {
    Outcomes(f, m, neg, c, e);
    Outcomes(f, m, neg, c', e');
    hide Result, Place, RoundedKept, RoundFlags, ExactOf, IntegralAt, CutPart, Pow10;
    var j: nat := Place(f, c, e);
    OneMore(RoundedKept(f, m, neg, c, e), Pow10(j));
  }

  /** Cuts on different sides of a half are told apart by rounding half up or half down. */
  lemma SideDiffers(f: Format, neg: bool, c: nat, e: int, c': nat, e': int)
    requires f.Valid() && CutPart(f, c, e) != 0 && CutPart(f, c', e') != 0
    requires Place(f, c, e) == Place(f, c', e') && KeptPart(f, c, e) == KeptPart(f, c', e') && Side(f, c, e) < Side(f, c', e')
    requires Place(f, c, e) >= 0 && KeptPart(f, c, e) * Pow10(Place(f, c, e)) < Pow10(f.pmax + f.Top())
    ensures exists m: Mode :: Result(f, m, neg, c, e) != Result(f, m, neg, c', e')
  {
    var m := if Side(f, c, e) < 0 then HalfUp else HalfDown;
    assert RoundedKept(f, m, neg, c, e) == KeptPart(f, c, e);
    assert RoundedKept(f, m, neg, c', e') == KeptPart(f, c', e') + 1;
    hide Pow10, RoundedKept, KeptPart, CutPart, Place, Side, Result;
    NextDiffers(f, m, neg, c, e, c', e');
  }

  lemma DownKeeps(f: Format, neg: bool, c: nat, e: int)
    ensures RoundedKept(f, Down, neg, c, e) == KeptPart(f, c, e)
  {
  }

  /** Numbers kept with the same value are kept at the same exponent. */
  lemma SamePlace(f: Format, q: nat, j: nat, q': nat, j': nat)
    requires f.Valid() && q < Pow10(f.pmax) && q' < Pow10(f.pmax) && q * Pow10(j) == q' * Pow10(j')
    requires (j > 0 ==> q >= Pow10(f.pmax - 1)) && (j' > 0 ==> q' >= Pow10(f.pmax - 1))
    ensures j == j' && q == q'
  {
    assert Pow10(f.pmax) == 10 * Pow10(f.pmax - 1);
    hide Pow10;
    if j < j' {
      CoarserIsLonger(f, q, j, q', j');
    } else if j' < j {
      CoarserIsLonger(f, q', j', q, j);
    } else {
      CancelSame(q, q', Pow10(j));
    }
  }

  lemma CoarserIsLonger(f: Format, q: nat, j: nat, q': nat, j': nat)
    requires j < j' && q * Pow10(j) == q' * Pow10(j')
    ensures q >= 10 * q'
  {
    Pow10Grows(j, j');
    hide Pow10;
    MulLe(10 * Pow10(j), Pow10(j'), q');
    assert q' * (10 * Pow10(j)) == 10 * q' * Pow10(j);
    CancelLe(10 * q', q, Pow10(j));
  }

  lemma CancelSame(a: nat, b: nat, p: nat)
    requires p > 0 && a * p == b * p
    ensures a == b
  {
    CancelLe(a, b, p);
    CancelLe(b, a, p);
  }

  lemma OverflowsHigh(f: Format, neg: bool, c: nat, e: int)
    requires f.Valid() && c > 0 && Place(f, c, e) >= 0 && KeptPart(f, c, e) * Pow10(Place(f, c, e)) >= Pow10(f.pmax + f.Top())
    ensures OutOfRange(f, c, e)
  {
    var d, j: nat := Dropped(f, c, e), Place(f, c, e);
    DivModFact(c, Pow10(d));
    hide Pow10, NumDigits, ExactOf;
    HugeIsOutOfRange(f, neg, c, e);
    HugeByKept(f, neg, c, e, KeptPart(f, c, e), d, j);
  }

  lemma HugeByKept(f: Format, neg: bool, c: nat, e: int, q: nat, d: nat, j: nat)
    requires f.Valid() && q * Pow10(d) <= c && j == e + d - f.Qtiny() && q * Pow10(j) >= Pow10(f.pmax + f.Top())
    ensures Huge(f, ExactOf(f, neg, c, 1, e))
  {
    var T := Pow10(f.pmax + f.Top());
    hide Pow10;
    if e >= f.Qtiny() {
      var t := e - f.Qtiny();
      Pow10Add(d, t);
      MulLe(q * Pow10(d), c, Pow10(t));
      MulAssoc(q, Pow10(d), Pow10(t));
    } else {
      var t := f.Qtiny() - e;
      Pow10Add(j, t);
      MulLe(T, q * Pow10(j), Pow10(t));
      MulAssoc(q, Pow10(j), Pow10(t));
    }
  }

  /** Same outcomes in every mode, for numbers that both lose digits: both overflow, or the cuts are the same. */
  lemma AlikeCuts(f: Format, neg: bool, c: nat, e: int, c': nat, e': int)
    requires f.Valid() && c > 0 && c' > 0 && CutPart(f, c', e') != 0
    requires forall m: Mode :: Result(f, m, neg, c, e) == Result(f, m, neg, c', e')
    ensures SameCut(f, c, e, c', e') || (OutOfRange(f, c, e) && OutOfRange(f, c', e'))
  {
    PlaceNat(f, c, e);
    PlaceNat(f, c', e');
    Outcomes(f, Down, neg, c, e);
    Outcomes(f, Down, neg, c', e');
    DownKeeps(f, neg, c, e);
    DownKeeps(f, neg, c', e');
    assert Result(f, Down, neg, c, e) == Result(f, Down, neg, c', e');
    var q, j: nat, q', j': nat, T := KeptPart(f, c, e), Place(f, c, e), KeptPart(f, c', e'), Place(f, c', e'), Pow10(f.pmax + f.Top());
    hide Pow10, ExactOf, Result, RoundedKept, RoundFlags, IntegralAt, Place, KeptPart, CutPart, Side, OutOfRange;
    if q * Pow10(j) >= T {
      OverflowsHigh(f, neg, c, e);
      OverflowsHigh(f, neg, c', e');
    } else {
      KeptDigits(f, c, e);
      KeptDigits(f, c', e');
      SamePlace(f, q, j, q', j');
      if Side(f, c, e) < Side(f, c', e') {
        SideDiffers(f, neg, c, e, c', e');
      } else if Side(f, c', e') < Side(f, c, e) {
        SideDiffers(f, neg, c', e', c, e);
      }
    }
  }

  lemma NumbersAlikeResults(f: Format, neg: bool, c: nat, e: int, c': nat, e': int)
    requires f.Valid()
    ensures NumbersAlike(f, neg, c, e, c', e') <==> forall m: Mode :: Result(f, m, neg, c, e) == Result(f, m, neg, c', e')
  {
    forall m: Mode, r: DecFloat, s: set<Flag>
      ensures Rounded(f, m, ExactOf(f, neg, c, 1, e), r, {}, s) <==> r == Result(f, m, neg, c, e).df && s == Result(f, m, neg, c, e).flags
      ensures Rounded(f, m, ExactOf(f, neg, c', 1, e'), r, {}, s) <==> r == Result(f, m, neg, c', e').df && s == Result(f, m, neg, c', e').flags
    {
      RoundedIs(f, m, neg, c, e, r, s);
      RoundedIs(f, m, neg, c', e', r, s);
    }
    hide Rounded, Result, ExactOf;
    if NumbersAlike(f, neg, c, e, c', e') {
      forall m: Mode
        ensures Result(f, m, neg, c, e) == Result(f, m, neg, c', e')
      {
        var o := Result(f, m, neg, c', e');
        assert Rounded(f, m, ExactOf(f, neg, c', 1, e'), o.df, {}, o.flags);
      }
    }
  }

  lemma BothOverflow(f: Format, m: Mode, neg: bool, c: nat, e: int, c': nat, e': int)
    requires f.Valid() && c > 0 && c' > 0 && OutOfRange(f, c, e) && OutOfRange(f, c', e')
    ensures Result(f, m, neg, c, e) == Result(f, m, neg, c', e')
  {
    var o := Result(f, m, neg, c, e);
    HugeIsOutOfRange(f, neg, c, e);
    HugeIsOutOfRange(f, neg, c', e');
    NegOf(f, neg, c, e);
    NegOf(f, neg, c', e');
    hide Rounded, Result, ExactOf, Huge, OutOfRange;
    RoundedIs(f, m, neg, c, e, o.df, o.flags);
    HugeRounds(f, m, ExactOf(f, neg, c, 1, e), o.df, {}, o.flags);
    HugeRounds(f, m, ExactOf(f, neg, c', 1, e'), o.df, {}, o.flags);
    RoundedIs(f, m, neg, c', e', o.df, o.flags);
  }

  lemma NegOf(f: Format, neg: bool, c: nat, e: int)
    ensures ExactOf(f, neg, c, 1, e).neg == neg
  {
  }

  /** Two numbers, the second of which is inexact, round alike in every mode exactly when the same is kept
      of both and what is cut off lies on the same side of a half, or both are out of range. */
  lemma AlikeIffSameCut(f: Format, neg: bool, c: nat, e: int, c': nat, e': int)
    requires f.Valid() && c > 0 && c' > 0 && CutPart(f, c', e') != 0
    ensures NumbersAlike(f, neg, c, e, c', e') <==> SameCut(f, c, e, c', e') || (OutOfRange(f, c, e) && OutOfRange(f, c', e'))
  {
    NumbersAlikeResults(f, neg, c, e, c', e');
    hide NumbersAlike, Result, SameCut, OutOfRange, CutPart;
    if SameCut(f, c, e, c', e') {
      forall m: Mode
        ensures Result(f, m, neg, c, e) == Result(f, m, neg, c', e')
      {
        SameCutSameResult(f, m, neg, c, e, c', e');
      }
    } else if OutOfRange(f, c, e) && OutOfRange(f, c', e') {
      forall m: Mode
        ensures Result(f, m, neg, c, e) == Result(f, m, neg, c', e')
      {
        BothOverflow(f, m, neg, c, e, c', e');
      }
    } else if forall m: Mode :: Result(f, m, neg, c, e) == Result(f, m, neg, c', e') {
      AlikeCuts(f, neg, c, e, c', e');
    }
  }
}
