/** decNumCompare: numeric and total-order comparison of two data that are not NaNs. */
module Compare {
  import opened Powers
  import opened Digits
  import opened Formats
  import opened Rounding
  import opened Meaning
  import opened AddLayout
  import opened Sums
  import opened NextAfter

  // ---- the orders, stated on values ----

  predicate Numeric(f: Format, x: DecFloat) {
    !x.NaN? && x.Fits(f)
  }

  /** An integer that orders data as their values do; infinities are beyond every number. */
  function Rank(f: Format, x: DecFloat): int
    requires f.Valid() && Numeric(f, x)
  {
    if x.Infinite? then Signed(x.neg, Pow10(f.pmax + f.Top())) else Value(f, x)
  }

  /** Orders the members of a cohort, and the two zeros: away from minus infinity with the sign,
      and in each sign by exponent. */
  function CohortRank(f: Format, x: DecFloat): int
    requires f.Valid() && Numeric(f, x)
  {
    if x.Infinite? then 0 else Signed(x.neg, x.exp - f.Qtiny() + 1)
  }

  function Sign(v: int): int {
    if v < 0 then -1 else if v > 0 then 1 else 0
  }

  /** The sign of the true difference. */
  function NumericOrder(f: Format, x: DecFloat, y: DecFloat): int
    requires f.Valid() && Numeric(f, x) && Numeric(f, y)
  {
    Sign(Rank(f, x) - Rank(f, y))
  }

  /** The total order of IEEE 754, section 5.10, on numbers. */
  function TotalOrder(f: Format, x: DecFloat, y: DecFloat): int
    requires f.Valid() && Numeric(f, x) && Numeric(f, y)
  {
    if Rank(f, x) != Rank(f, y) then NumericOrder(f, x, y) else Sign(CohortRank(f, x) - CohortRank(f, y))
  }

  /** The total order is antisymmetric, transitive and decides equality of data exactly. */
  lemma TotalOrderLaws(f: Format, x: DecFloat, y: DecFloat, z: DecFloat)
    requires f.Valid() && Numeric(f, x) && Numeric(f, y) && Numeric(f, z)
    ensures TotalOrder(f, x, y) == -TotalOrder(f, y, x)
    ensures TotalOrder(f, x, y) <= 0 && TotalOrder(f, y, z) <= 0 ==> TotalOrder(f, x, z) <= 0
    ensures TotalOrder(f, x, y) == 0 <==> x == y
  {
    hide Rank, CohortRank;
    if TotalOrder(f, x, y) == 0 {
      SameRanks(f, x, y);
    }
  }

  lemma RankBounds(f: Format, x: DecFloat)
    requires f.Valid() && x.Finite? && x.Fits(f)
    ensures Magnitude(Value(f, x)) < Pow10(f.pmax + f.Top())
  {
    FitsIsDatum(f, x);
    DatumBound(f, Units(f, x));
  }

  lemma SameRanks(f: Format, x: DecFloat, y: DecFloat)
    requires f.Valid() && Numeric(f, x) && Numeric(f, y)
    requires Rank(f, x) == Rank(f, y) && CohortRank(f, x) == CohortRank(f, y)
    ensures x == y
  {
    hide Pow10;
    if x.Finite? {
      RankBounds(f, x);
    }
    if y.Finite? {
      RankBounds(f, y);
    }
    if x.Finite? && y.Finite? {
      assert x.neg == y.neg && x.exp == y.exp;
      SameUnits(x.coef, y.coef, Pow10(x.exp - f.Qtiny()));
    }
  }

  lemma SameUnits(a: nat, b: nat, p: nat)
    requires p > 0 && a * p == b * p
    ensures a == b
  {
    if a < b { MulLt(a, b, p); } else if b < a { MulLt(b, a, p); }
  }

  /** The difference of two finite data, at the smaller exponent, has the sign of the order. */
  lemma OrderIsDifference(f: Format, x: DecFloat, y: DecFloat)
    requires f.Valid() && x.Finite? && x.Fits(f) && y.Finite? && y.Fits(f)
    ensures var e := Min(x.exp, y.exp);
      NumericOrder(f, x, y) == Sign(Signed(x.neg, x.coef * Pow10(x.exp - e)) - Signed(y.neg, y.coef * Pow10(y.exp - e)))
  {
    hide Pow10, Rank, Sign, Signed;
    var e := Min(x.exp, y.exp);
    RankScaled(f, x, e);
    RankScaled(f, y, e);
    ScaledSign(Signed(x.neg, x.coef * Pow10(x.exp - e)), Signed(y.neg, y.coef * Pow10(y.exp - e)), Pow10(e - f.Qtiny()));
  }

  lemma RankScaled(f: Format, x: DecFloat, e: int)
    requires f.Valid() && x.Finite? && x.Fits(f) && f.Qtiny() <= e <= x.exp
    ensures Rank(f, x) == Signed(x.neg, x.coef * Pow10(x.exp - e)) * Pow10(e - f.Qtiny())
  {
    hide Pow10;
    Pow10Add(x.exp - e, e - f.Qtiny());
    MulAssoc(x.coef, Pow10(x.exp - e), Pow10(e - f.Qtiny()));
    SignedScale(x.neg, x.coef * Pow10(x.exp - e), Pow10(e - f.Qtiny()));
  }

  lemma SignedScale(neg: bool, a: nat, p: nat)
    ensures Signed(neg, a * p) == Signed(neg, a) * p
  {
  }

  lemma ScaledSign(a: int, b: int, p: nat)
    requires p > 0
    ensures Sign(a * p - b * p) == Sign(a - b)
  {
    if a < b { MulLt(a, b, p); } else if b < a { MulLt(b, a, p); }
  }

  /** The numeric order, on the fields: finite data by value, infinities beyond every finite datum. */
  lemma NumericOrderByValue(f: Format, x: DecFloat, y: DecFloat)
    requires f.Valid() && Numeric(f, x) && Numeric(f, y)
    ensures x.Finite? && y.Finite? ==>
      var e := if x.exp <= y.exp then x.exp else y.exp;
      var X, Y := SignedUnits(x, e), SignedUnits(y, e);
      NumericOrder(f, x, y) == if X < Y then -1 else if X > Y then 1 else 0
    ensures x.Finite? && y.Infinite? ==> NumericOrder(f, x, y) == if y.neg then 1 else -1
    ensures x.Infinite? && y.Finite? ==> NumericOrder(f, x, y) == if x.neg then -1 else 1
    ensures x.Infinite? && y.Infinite? ==> NumericOrder(f, x, y) == if x.neg == y.neg then 0 else if x.neg then -1 else 1
  {
    hide Pow10;
    if x.Finite? {
      RankBounds(f, x);
    }
    if y.Finite? {
      RankBounds(f, y);
    }
    if x.Finite? && y.Finite? {
      OrderIsDifference(f, x, y);
    }
  }

  /** The total order refines it (IEEE 754, section 5.10): -0 is below +0, and of equal values of one sign the one with
      the greater exponent is the greater, for negative ones the less, zeros included. */
  lemma TotalOrderByFields(f: Format, x: DecFloat, y: DecFloat)
    requires f.Valid() && Numeric(f, x) && Numeric(f, y)
    ensures NumericOrder(f, x, y) != 0 ==> TotalOrder(f, x, y) == NumericOrder(f, x, y)
    ensures x.Infinite? && y.Infinite? ==> TotalOrder(f, x, y) == NumericOrder(f, x, y)
    ensures x.Finite? && y.Finite? && NumericOrder(f, x, y) == 0 && x.neg != y.neg ==>
      x.coef == 0 && y.coef == 0 && TotalOrder(f, x, y) == if x.neg then -1 else 1
    ensures x.Finite? && y.Finite? && NumericOrder(f, x, y) == 0 && x.neg == y.neg ==>
      && (TotalOrder(f, x, y) > 0 <==> if x.neg then x.exp < y.exp else x.exp > y.exp)
      && (TotalOrder(f, x, y) == 0 <==> x.exp == y.exp)
  {
    hide Pow10, Rank, CohortRank;
    Placed(f, x);
    Placed(f, y);
  }

  // ---- comparing digit strings ----

  /** The first difference decides. */
  lemma FirstDifference(s: seq<nat>, t: seq<nat>, i: nat)
    requires |s| == |t| && i < |s| && AllDigits(s) && AllDigits(t) && s[..i] == t[..i] && s[i] > t[i]
    ensures Dec(s) > Dec(t)
  {
    var a := IncrementableHead(s, t, i);
    DecCut(s, i + 1);
    DecCut(t, i + 1);
    DecBound(t[i + 1..]);
    MulLe(Dec(t[..i + 1]) + 1, Dec(s[..i + 1]), Pow10(|s| - i - 1));
    hide Dec, Pow10;
    assert (Dec(t[..i + 1]) + 1) * Pow10(|s| - i - 1) == Dec(t[..i + 1]) * Pow10(|s| - i - 1) + Pow10(|s| - i - 1);
  }

  lemma IncrementableHead(s: seq<nat>, t: seq<nat>, i: nat) returns (a: nat)
    requires i < |s| == |t| && s[..i] == t[..i] && s[i] > t[i]
    ensures a == Dec(t[..i + 1]) && Dec(s[..i + 1]) > a
  {
    a := Dec(t[..i + 1]);
    assert s[..i + 1] == s[..i] + [s[i]] && t[..i + 1] == t[..i] + [t[i]];
    DecSnoc(s[..i], s[i]);
    DecSnoc(t[..i], t[i]);
  }

  /** Compares w digits of two buffers a word at a time, and inside the first different word byte by byte. */
  method CompareWords(a: array<nat>, i: nat, b: array<nat>, j: nat, w: nat) returns (order: int)
    requires w % 4 == 0 && i + w <= a.Length && j + w <= b.Length && AllDigits(a[i..i + w]) && AllDigits(b[j..j + w])
    ensures order == Sign(Dec(a[i..i + w]) - Dec(b[j..j + w]))
  {
    ghost var s, t := a[i..i + w], b[j..j + w];
    hide Dec;
    var k := 0;
    while k < w
      invariant k <= w && k % 4 == 0 && s[..k] == t[..k]
    {
      if a[i + k] != b[j + k] || a[i + k + 1] != b[j + k + 1] || a[i + k + 2] != b[j + k + 2] || a[i + k + 3] != b[j + k + 3] {
        order := DifferInWord(a, i, b, j, w, k);
        return;
      }
      assert s[k] == t[k] && s[k + 1] == t[k + 1] && s[k + 2] == t[k + 2] && s[k + 3] == t[k + 3];
      assert s[..k + 4] == s[..k] + [s[k], s[k + 1], s[k + 2], s[k + 3]];
      assert t[..k + 4] == t[..k] + [t[k], t[k + 1], t[k + 2], t[k + 3]];
      k := k + 4;
    }
    assert s[..w] == s && t[..w] == t;
    order := 0;
  }

  /** Finds the first different byte of a word known to differ. */
  method DifferInWord(a: array<nat>, i: nat, b: array<nat>, j: nat, w: nat, k: nat) returns (order: int)
    requires k + 4 <= w && i + w <= a.Length && j + w <= b.Length && AllDigits(a[i..i + w]) && AllDigits(b[j..j + w])
    requires a[i..i + w][..k] == b[j..j + w][..k]
    requires a[i + k] != b[j + k] || a[i + k + 1] != b[j + k + 1] || a[i + k + 2] != b[j + k + 2] || a[i + k + 3] != b[j + k + 3]
    ensures order == Sign(Dec(a[i..i + w]) - Dec(b[j..j + w]))
  {
    ghost var s, t := a[i..i + w], b[j..j + w];
    hide Dec;
    assert forall v :: 0 <= v < k ==> s[v] == s[..k][v] == t[..k][v] == t[v];
    assert s[k] != t[k] || s[k + 1] != t[k + 1] || s[k + 2] != t[k + 2] || s[k + 3] != t[k + 3];
    var u := k;
    while a[i + u] == b[j + u]
      invariant k <= u < k + 4 && forall v :: 0 <= v < u ==> s[v] == t[v]
      decreases k + 4 - u
    {
      assert s[u] == t[u];
      u := u + 1;
    }
    assert s[u] == a[i + u] && t[u] == b[j + u];
    assert s[..u] == t[..u];
    if a[i + u] > b[j + u] {
      FirstDifference(s, t, u);
      order := 1;
    } else {
      FirstDifference(t, s, u);
      order := -1;
    }
  }

  // ---- aligning ----

  /** A coefficient, right-aligned on a word boundary with zeros in front. */
  method Decode(f: Format, coef: nat) returns (buf: array<nat>)
    requires f.Valid() && coef < Pow10(f.pmax)
    ensures fresh(buf) && buf.Length == 2 * f.pmax + 8 && Width(f) + f.pmax <= buf.Length
    ensures AllDigits(buf[0..Width(f)]) && Dec(buf[0..Width(f)]) == coef
  {
    hide Dec, Pow10, AllDigits, Prefix;
    WidthFacts(f);
    buf := new nat[2 * f.pmax + 8];
    LayPadded(coef, f.pmax, buf, 0, Prefix(f));
  }

  /** Whether any of the first n digits is not zero: by fours while that is worth doing, then singly. */
  method LeadDigits(buf: array<nat>, n: nat) returns (any: bool)
    requires n <= buf.Length
    ensures any <==> !AllOf(buf[0..n], 0)
  {
    var u := 0;
    if n > 8 {
      while true
        invariant u + 4 <= n && forall i :: 0 <= i < u ==> buf[i] == 0
        decreases n - u
      {
        if buf[u] != 0 || buf[u + 1] != 0 || buf[u + 2] != 0 || buf[u + 3] != 0 {
          ghost var s := buf[0..n];
          assert s[u] == buf[u] && s[u + 1] == buf[u + 1] && s[u + 2] == buf[u + 2] && s[u + 3] == buf[u + 3];
          return true;
        }
        if u + 4 > n - 4 {
          break;
        }
        u := u + 4;
      }
    }
    while u < n
      invariant u <= n && forall i :: 0 <= i < u ==> buf[i] == 0
    {
      if buf[u] != 0 {
        assert buf[0..n][u] != 0;
        return true;
      }
      u := u + 1;
    }
    any := false;
  }

  /** A non-zero digit above the other operand's places decides at once. */
  lemma LeadDecides(s: seq<nat>, t: seq<nat>, k: nat)
    requires |s| == |t| + k && AllDigits(s) && AllDigits(t) && !AllOf(s[..k], 0)
    ensures Dec(s) > Dec(t)
  {
    hide Dec, Pow10;
    var i :| 0 <= i < k && s[..k][i] != 0;
    DecPlace(s, i);
    DecBound(t);
    Pow10Monotone(|t|, |s| - 1 - i);
  }

  /** Compares a coefficient shifted left with one that is not. */
  method CompareShifted(left: array<nat>, right: array<nat>, shift: nat, w: nat) returns (order: int)
    requires left != right && w % 4 == 0 && w + shift <= left.Length && w <= right.Length
    requires AllDigits(left[0..w]) && AllDigits(right[0..w])
    modifies left
    ensures order == Sign(old(Dec(left[0..w])) * Pow10(shift) - Dec(right[0..w]))
  {
    hide Dec, Pow10, AllDigits, AllOf;
    ghost var was, b := left[..], right[0..w];
    LayZeros(left, w, shift);
    SamePart(was, left[..], 0, w);
    DecTrailing(left[..], 0, w, w + shift);
    ghost var s := left[0..w + shift];
    assert left[0..shift] == s[..shift];
    var any := LeadDigits(left, shift);
    if any {
      LeadDecides(s, b, shift);
      return 1;
    }
    DecLeading(s, shift);
    assert left[shift..w + shift] == s[shift..];
    DigitsWithin(left[..], 0, w + shift, shift, w + shift);
    order := CompareWords(left, shift, right, 0, w);
  }

  /** Coefficients too far apart to overlap. */
  lemma FarApart(f: Format, a: nat, b: nat, k: nat)
    requires f.Valid() && a > 0 && b < Pow10(f.pmax) && k >= f.pmax
    ensures a * Pow10(k) > b
  {
    hide Pow10;
    Pow10Monotone(f.pmax, k);
    MulLe(1, a, Pow10(k));
  }

  /** Compares the magnitudes of two finite non-zero data: the sign of their difference. */
  method CompareMagnitudes(f: Format, dfl: DecFloat, dfr: DecFloat) returns (order: int)
    requires f.Valid() && dfl.Finite? && dfl.Fits(f) && dfr.Finite? && dfr.Fits(f) && dfl.coef > 0 && dfr.coef > 0
    ensures var e := Min(dfl.exp, dfr.exp);
      order == Sign(dfl.coef * Pow10(dfl.exp - e) - dfr.coef * Pow10(dfr.exp - e))
  {
    hide Dec, Pow10, Width, AllDigits;
    WidthFacts(f);
    TimesOne(dfl.coef);
    TimesOne(dfr.coef);
    var shift := dfl.exp - dfr.exp;
    if shift >= f.pmax {
      FarApart(f, dfl.coef, dfr.coef, shift);
      return 1;
    }
    if 0 - shift >= f.pmax {
      FarApart(f, dfr.coef, dfl.coef, 0 - shift);
      return -1;
    }
    var bufl := Decode(f, dfl.coef);
    var bufr := Decode(f, dfr.coef);
    if shift == 0 {
      order := CompareWords(bufl, 0, bufr, 0, Width(f));
    } else if shift > 0 {
      order := CompareShifted(bufl, bufr, shift, Width(f));
    } else {
      order := CompareShifted(bufr, bufl, 0 - shift, Width(f));
      order := 0 - order;
    }
  }

  /** decNumCompare: numeric comparison, or the total order. */
  method DecNumCompare(f: Format, dfl: DecFloat, dfr: DecFloat, tot: bool) returns (order: int)
    requires f.Valid() && Numeric(f, dfl) && Numeric(f, dfr)
    ensures order == if tot then TotalOrder(f, dfl, dfr) else NumericOrder(f, dfl, dfr)
  {
    Placed(f, dfl);
    Placed(f, dfr);
    hide Pow10, Rank, CohortRank;
    var sigl := if dfl.neg then -1 else 1;
    if dfl.neg != dfr.neg {
      if dfl.IsZero() && dfr.IsZero() && !tot {
        return 0;
      }
      return sigl;
    }
    var sigr := 0 - sigl;
    if dfl.Infinite? {
      return if dfr.Infinite? then 0 else sigl;
    }
    if dfr.Infinite? {
      return sigr;
    }
    var shift := dfl.exp - dfr.exp;
    if dfl.IsZero() {
      if !dfr.IsZero() {
        return sigr;
      }
      return if shift == 0 || !tot then 0 else if shift > 0 then sigl else sigr;
    }
    if dfr.IsZero() {
      return sigl;
    }
    var magnitude := CompareMagnitudes(f, dfl, dfr);
    SameSignOrder(f, dfl, dfr, magnitude);
    if magnitude != 0 {
      return if magnitude > 0 then sigl else sigr;
    }
    order := if !tot || shift == 0 then 0 else if shift > 0 then sigl else sigr;
  }

  /** Where a datum's ranks lie. */
  lemma Placed(f: Format, x: DecFloat)
    requires f.Valid() && Numeric(f, x)
    ensures var bound := Pow10(f.pmax + f.Top());
      && (x.Infinite? ==> Rank(f, x) == Signed(x.neg, bound) && CohortRank(f, x) == 0)
      && (x.Finite? ==> Magnitude(Rank(f, x)) < bound && CohortRank(f, x) == Signed(x.neg, x.exp - f.Qtiny() + 1))
      && (x.Finite? ==> Sign(Rank(f, x)) == if x.coef == 0 then 0 else Sign(Signed(x.neg, 1)))
  {
    if x.Finite? {
      RankBounds(f, x);
      if x.coef > 0 { MulLt(0, x.coef, Pow10(x.exp - f.Qtiny())); }
    }
  }

  /** For data of one sign, the order of the magnitudes, turned round for negative ones. */
  lemma SameSignOrder(f: Format, x: DecFloat, y: DecFloat, magnitude: int)
    requires f.Valid() && x.Finite? && x.Fits(f) && y.Finite? && y.Fits(f) && x.neg == y.neg
    requires var e := Min(x.exp, y.exp); magnitude == Sign(x.coef * Pow10(x.exp - e) - y.coef * Pow10(y.exp - e))
    ensures NumericOrder(f, x, y) == if x.neg then 0 - magnitude else magnitude
  {
    OrderIsDifference(f, x, y);
    hide Rank, Pow10;
  }
}
