/** Which operands the shortening guard leaves correctly rounded: exactly those that meet a condition on
    the two sums, the full one and the one with the addend replaced. */
module FmaAlike {
  import opened Powers
  import opened Formats
  import opened Rounding
  import opened Sums
  import opened FmaShorten
  import opened Fma
  import opened FarExponents
  import opened CutAlike

  // ---- the two sums ----

  /** An overlapped addend is replaced by one digit three places below a product longer than pmax+2 digits. */
  lemma OverlapSizes(f: Format, a: Term, b: Term)
    requires f.Valid() && a.coef > 0 && a.exp >= b.exp && Shortens(f, a, b) && !Clear(a, b)
    ensures b.coef > 0 && a.exp > b.exp && NumDigits(a.coef) > f.pmax + 2 && Replacement(f, a, b).exp == a.exp - 3
    ensures 0 < b.coef < a.coef * Pow10(a.exp - b.exp)
  {
    var p, h, l := a.exp - b.exp, NumDigits(a.coef), NumDigits(b.coef);
    assert b.coef == 0 ==> l == 1;
    assert b.coef < Pow10(l) && Pow10(h - 1) <= a.coef;
    hide Pow10, NumDigits;
    Pow10Add(h - 1, p);
    Pow10Monotone(l, h - 1 + p);
    MulLe(Pow10(h - 1), a.coef, Pow10(p));
  }

  lemma LeadDigitRange(c: nat)
    requires c > 0
    ensures 1 <= LeadDigit(c) <= 9
  {
    var l := NumDigits(c);
    assert Pow10(l - 1) <= c < Pow10(l) == 10 * Pow10(l - 1);
    hide Pow10, NumDigits;
    var q, p := LeadDigit(c), Pow10(l - 1);
    DivModFact(c, p);
    CancelLt(q, 10, p);
    OneMore(q, p);
    CancelLt(1, q + 1, p);
  }

  /** A sum the higher term dominates keeps that term's sign. */
  lemma Dominated(f: Format, m: Mode, a: Term, b: Term)
    requires a.exp >= b.exp && b.coef < a.coef * Pow10(a.exp - b.exp)
    ensures Magnitude(SumOf(a, b)) > 0
    ensures ExactSum(f, m, a, b) == ExactOf(f, a.neg, Magnitude(SumOf(a, b)), 1, b.exp)
    ensures Magnitude(SumOf(a, b)) == a.coef * Pow10(a.exp - b.exp) + (if a.neg == b.neg then b.coef else 0 - b.coef)
  {
    assert Pow10(0) == 1;
    hide Pow10, ExactOf;
    assert At(b, b.exp) == b.coef * 1;
  }

  /** The replacement's sum ends in a digit other than 0, far below what is kept. */
  lemma ReplacedCut(f: Format, c: nat, d: nat, s: nat, e: int)
    requires f.Valid() && NumDigits(c) > f.pmax + 2 && c > 0 && 1 <= d <= 9 && (s == 1000 * c + d || s == 1000 * c - d)
    ensures CutPart(f, s, e) != 0
  {
    hide Pow10, NumDigits;
    LongerByTwo(c, d, s);
    assert Dropped(f, s, e) >= 1;
    if CutPart(f, s, e) == 0 {
      LastDigit(s, Dropped(f, s, e));
      NonzeroDigit(c, d, s);
    }
  }

  lemma NonzeroDigit(c: nat, d: nat, s: nat)
    requires 1 <= d <= 9 && (s == 1000 * c + d || s == 1000 * c - d)
    ensures s % 10 != 0
  {
  }

  lemma LongerByTwo(c: nat, d: nat, s: nat)
    requires c > 0 && 1 <= d <= 9 && (s == 1000 * c + d || s == 1000 * c - d)
    ensures NumDigits(s) >= NumDigits(c) + 2
  {
    var h := NumDigits(c);
    hide Pow10, NumDigits;
    Pow10Next(h - 1);
    Pow10Next(h);
    DigitsAtLeast(s, h + 2);
  }

  lemma LastDigit(s: nat, n: nat)
    requires n >= 1 && s % Pow10(n) == 0
    ensures s % 10 == 0
  {
    var q, p := s / Pow10(n), Pow10(n - 1);
    assert Pow10(n) == 10 * p;
    DivModFact(s, Pow10(n));
    assert q * (10 * p) == 10 * (q * p);
  }

  lemma ReplacementIs(f: Format, a: Term, b: Term)
    requires a.exp >= b.exp
    ensures var t := Replacement(f, a, b);
      t == Term(b.neg, LeadDigit(b.coef), t.exp) && Pow10(3) == 1000
  {
  }

  lemma SumsWritten(f: Format, m: Mode, a: Term, b: Term)
    requires f.Valid() && a.coef > 0 && a.exp >= b.exp && Shortens(f, a, b) && !Clear(a, b)
    ensures var t, x, y := Replacement(f, a, b), Magnitude(SumOf(a, b)), Magnitude(SumOf(a, Replacement(f, a, b)));
      && ExactSum(f, m, a, b) == ExactOf(f, a.neg, x, 1, b.exp) && x > 0
      && ExactSum(f, m, a, t) == ExactOf(f, a.neg, y, 1, t.exp) && y > 0 && CutPart(f, y, t.exp) != 0
  {
    hide *;
    var t, d := Replacement(f, a, b), LeadDigit(b.coef);
    ReplacementIs(f, a, b);
    OverlapSizes(f, a, b);
    LeadDigitRange(b.coef);
    Dominated(f, m, a, b);
    Dominated(f, m, a, t);
    ReplacedCut(f, a.coef, d, Magnitude(SumOf(a, t)), t.exp);
  }

  // ---- the theorem ----

  /** What decFloatFMA adds to the product, as far as the rounded result can tell. */
  function Used(f: Format, dfl: DecFloat, dfr: DecFloat, dff: DecFloat): Term
    requires dfl.Finite? && dfr.Finite? && dff.Finite?
  {
    if Overlaps(f, dfl, dfr, dff) then Replacement(f, Product(dfl, dfr), Addend(dff)) else Addend(dff)
  }

  /** Whatever decFloatFMA may return is the correctly rounded sum, in every mode. */
  ghost predicate RightInEveryMode(f: Format, dfl: DecFloat, dfr: DecFloat, dff: DecFloat)
    requires f.Valid() && dfl.Finite? && dfr.Finite? && dff.Finite?
  {
    AddedAlike(f, Product(dfl, dfr), Addend(dff), Used(f, dfl, dfr, dff))
  }

  /** Whatever correct rounding makes of a + t it makes of a + b, in every mode. */
  ghost predicate AddedAlike(f: Format, a: Term, b: Term, t: Term)
    requires f.Valid()
  {
    forall m: Mode, r: DecFloat, s: set<Flag> ::
      Rounded(f, m, ExactSum(f, m, a, t), r, {}, s) ==> Rounded(f, m, ExactSum(f, m, a, b), r, {}, s)
  }

  /** The full sum and the replaced one are cut at the same exponent with the same digits kept and the rest
      on the same side of a half, or both are out of range. */
  predicate SumsCutAlike(f: Format, a: Term, b: Term) {
    var t := Replacement(f, a, b);
    var x, y := Magnitude(SumOf(a, b)), Magnitude(SumOf(a, t));
    SameCut(f, x, b.exp, y, t.exp) || (OutOfRange(f, x, b.exp) && OutOfRange(f, y, t.exp))
  }

  lemma OverlapsMeans(f: Format, dfl: DecFloat, dfr: DecFloat, dff: DecFloat)
    requires dfl.Finite? && dfr.Finite? && dff.Finite? && Overlaps(f, dfl, dfr, dff)
    ensures var a, b := Product(dfl, dfr), Addend(dff);
      a.coef > 0 && a.exp >= b.exp && Shortens(f, a, b) && !Clear(a, b) && Used(f, dfl, dfr, dff) == Replacement(f, a, b)
  {
  }

  /** Sums of fixed magnitude and sign round alike as those magnitudes do. */
  lemma AlikeAsNumbers(f: Format, a: Term, b: Term, t: Term, neg: bool, x: nat, y: nat)
    requires f.Valid()
    requires forall m: Mode :: ExactSum(f, m, a, b) == ExactOf(f, neg, x, 1, b.exp)
    requires forall m: Mode :: ExactSum(f, m, a, t) == ExactOf(f, neg, y, 1, t.exp)
    ensures AddedAlike(f, a, b, t) <==> NumbersAlike(f, neg, x, b.exp, y, t.exp)
  {
    hide Rounded, ExactSum, ExactOf;
    if AddedAlike(f, a, b, t) {
      forall m: Mode, r: DecFloat, s: set<Flag> | Rounded(f, m, ExactOf(f, neg, y, 1, t.exp), r, {}, s)
        ensures Rounded(f, m, ExactOf(f, neg, x, 1, b.exp), r, {}, s)
      {
        assert Rounded(f, m, ExactSum(f, m, a, t), r, {}, s);
      }
    }
    if NumbersAlike(f, neg, x, b.exp, y, t.exp) {
      forall m: Mode, r: DecFloat, s: set<Flag> | Rounded(f, m, ExactSum(f, m, a, t), r, {}, s)
        ensures Rounded(f, m, ExactSum(f, m, a, b), r, {}, s)
      {
        assert Rounded(f, m, ExactOf(f, neg, y, 1, t.exp), r, {}, s);
      }
    }
  }

  lemma ReplacedRightly(f: Format, a: Term, b: Term)
    requires f.Valid() && a.coef > 0 && a.exp >= b.exp && Shortens(f, a, b) && !Clear(a, b)
    ensures AddedAlike(f, a, b, Replacement(f, a, b)) <==> SumsCutAlike(f, a, b)
  {
    var t := Replacement(f, a, b);
    var x, y := Magnitude(SumOf(a, b)), Magnitude(SumOf(a, t));
    assert SumsCutAlike(f, a, b) <==> SameCut(f, x, b.exp, y, t.exp) || (OutOfRange(f, x, b.exp) && OutOfRange(f, y, t.exp));
    hide *;
    forall m: Mode
      ensures ExactSum(f, m, a, b) == ExactOf(f, a.neg, x, 1, b.exp) && ExactSum(f, m, a, t) == ExactOf(f, a.neg, y, 1, t.exp)
    {
      SumsWritten(f, m, a, b);
    }
    SumsWritten(f, Down, a, b);
    AlikeIffSameCut(f, a.neg, x, b.exp, y, t.exp);
    AlikeAsNumbers(f, a, b, t, a.neg, x, y);
  }

  /** With finite operands decFloatFMA rounds once, correctly, exactly when the guard does not fire on an
      overlapped addend or the replaced sum is cut as the full one is. */
  lemma FmaRightly(f: Format, dfl: DecFloat, dfr: DecFloat, dff: DecFloat)
    requires f.Valid() && dfl.Finite? && dfr.Finite? && dff.Finite?
    ensures RightInEveryMode(f, dfl, dfr, dff) <==>
      !Overlaps(f, dfl, dfr, dff) || SumsCutAlike(f, Product(dfl, dfr), Addend(dff))
  {
    if Overlaps(f, dfl, dfr, dff) {
      OverlapsMeans(f, dfl, dfr, dff);
      ReplacedRightly(f, Product(dfl, dfr), Addend(dff));
    } else {
      hide Rounded, ExactSum, Overlaps, Product, Addend;
    }
  }

  /** So where the condition holds the promise of decFloatFMA for overlapped addends is correct rounding. */
  lemma FmaRounds(f: Format, m: Mode, dfl: DecFloat, dfr: DecFloat, dff: DecFloat, r: DecFloat, s0: set<Flag>, s1: set<Flag>)
    requires f.Valid() && dfl.Finite? && dfr.Finite? && dff.Finite? && Overlaps(f, dfl, dfr, dff)
    requires SumsCutAlike(f, Product(dfl, dfr), Addend(dff))
    requires Rounded(f, m, ExactSum(f, m, Product(dfl, dfr), Replacement(f, Product(dfl, dfr), Addend(dff))), r, s0, s1)
    ensures Rounded(f, m, ExactSum(f, m, Product(dfl, dfr), Addend(dff)), r, s0, s1)
  {
    FmaRightly(f, dfl, dfr, dff);
    OverlapsMeans(f, dfl, dfr, dff);
    var x, y := ExactSum(f, m, Product(dfl, dfr), Addend(dff)), ExactSum(f, m, Product(dfl, dfr), Used(f, dfl, dfr, dff));
    var j: nat :| Quantum(f, y, j) && r == Finish(f, m, y, j).df && s1 == s0 + Finish(f, m, y, j).flags;
    var flags := Finish(f, m, y, j).flags;
    assert {} + flags == flags;
    hide Quantum, Finish, ExactSum, Overlaps, Product, Addend, Used, SumsCutAlike, Replacement;
    assert Rounded(f, m, y, r, {}, flags);
    assert Rounded(f, m, x, r, {}, flags);
    var i: nat :| Quantum(f, x, i) && r == Finish(f, m, x, i).df && flags == {} + Finish(f, m, x, i).flags;
    assert s1 == s0 + Finish(f, m, x, i).flags;
  }
}
