/** From the unrounded quotient to the integer one: truncated, or rounded to nearest, in place. */
module IntegerQuotient {
  import opened Powers
  import opened Digits
  import opened Formats
  import opened Rounding
  import opened Sticky
  import opened Finalize
  import opened QuotientLayout

  /** Two coefficients at exponents e apart, written at the smaller exponent. */
  function Numer(n: nat, e: int): nat {
    if e >= 0 then n * Pow10(e) else n
  }

  function Denom(d: nat, e: int): nat {
    if e >= 0 then d else d * Pow10(-e)
  }

  lemma DenomPositive(d: nat, e: int)
    requires d > 0
    ensures Denom(d, e) > 0
  {
    if e < 0 { MulLt(0, d, Pow10(-e)); }
  }

  /** A comparison at exponent e', below zero, is a comparison over 10^-e'. */
  lemma ScaleToInteger(n: nat, d: nat, e: int, k: nat, drop: nat)
    requires 0 - drop <= e
    ensures k * d < n * Pow10(e + drop) <==> k * Denom(d, e) < Numer(n, e) * Pow10(drop)
    ensures k * d == n * Pow10(e + drop) <==> k * Denom(d, e) == Numer(n, e) * Pow10(drop)
  {
    if e >= 0 {
      Pow10Add(e, drop);
      MulAssoc(n, Pow10(e), Pow10(drop));
    } else {
      var p := Pow10(-e);
      Pow10Add(e + drop, -e);
      MulAssoc(n, Pow10(e + drop), p);
      MulAssoc(k, d, p);
      CompareScaled(k * d, n * Pow10(e + drop), p);
    }
  }

  lemma CompareScaled(a: nat, b: nat, p: nat)
    requires p > 0
    ensures (a < b <==> a * p < b * p) && (a == b <==> a * p == b * p)
  {
    if a < b { MulLt(a, b, p); } else if b < a { MulLt(b, a, p); }
  }

  /** The unrounded quotient c over P stands for N over D. */
  ghost predicate Represents(N: nat, D: nat, c: nat, P: nat, inexact: bool) {
    if inexact then exists q: nat :: Enclosed(N, D, c, P, q) else c * D == N * P
  }

  predicate Enclosed(N: nat, D: nat, c: nat, P: nat, q: nat) {
    q * D < N * P < (q + 1) * D && c % 2 == 1 && (c == q || c == q + 1)
  }

  lemma StandsRepresents(f: Format, n: nat, d: nat, e: int, c: nat, drop: nat, inexact: bool)
    requires Stands(f, n, d, e, c, 0 - drop, inexact)
    ensures Represents(Numer(n, e), Denom(d, e), c, Pow10(drop), inexact)
  {
    hide Pow10, Numer, Denom;
    assert e - (0 - drop) == e + drop;
    if inexact {
      var q: nat :| Truncated(f, n, d, e, c, 0 - drop, q);
      ScaleToInteger(n, d, e, q, drop);
      ScaleToInteger(n, d, e, q + 1, drop);
      assert Enclosed(Numer(n, e), Denom(d, e), c, Pow10(drop), q);
    } else {
      ScaleToInteger(n, d, e, c, drop);
    }
  }

  /** The integer parts agree. */
  lemma SameFloor(N: nat, D: nat, c: nat, P: nat, inexact: bool)
    requires D > 0 && P > 0 && Represents(N, D, c, P, inexact) && (inexact ==> P % 2 == 0)
    ensures N / D == c / P
  {
    if inexact {
      var q: nat :| Enclosed(N, D, c, P, q);
      OddFloor(q, c, P);
      FloorBetween(N, D, q, P);
    } else {
      DivModScale(N, D, P);
      DivModScale(c, P, D);
    }
  }

  /** Setting the low bit does not reach the next multiple of an even number. */
  lemma OddFloor(q: nat, c: nat, P: nat)
    requires P > 0 && P % 2 == 0 && c % 2 == 1 && (c == q || c == q + 1)
    ensures c / P == q / P
  {
    if c == q + 1 {
      var h := P / 2;
      var t, u := q / P, q % P;
      DivModFact(q, P);
      assert (t + 1) * P == t * P + P;
      assert (t + 1) * (2 * h) == 2 * ((t + 1) * h);
      DivModUnique(c, P, t, u + 1);
    }
  }

  lemma FloorBetween(N: nat, D: nat, q: nat, P: nat)
    requires D > 0 && P > 0 && q * D < N * P < (q + 1) * D
    ensures N / D == q / P
  {
    var t := q / P;
    DivModFact(q, P);
    MulLe(t * P, q, D);
    assert (t + 1) * P == t * P + P;
    MulLe(q + 1, (t + 1) * P, D);
    Swap(t, P, D);
    Swap(t + 1, P, D);
    CancelLt(t * D, N, P);
    CancelLt(N, (t + 1) * D, P);
    assert (t + 1) * D == t * D + D;
    DivModUnique(N, D, t, N - t * D);
  }

  /** The nearest integers agree. */
  lemma SameNearest(N: nat, D: nat, c: nat, P: nat, h: nat, inexact: bool)
    requires D > 0 && P > 0 && Represents(N, D, c, P, inexact) && (inexact ==> h > 0 && P == 20 * h)
    ensures RoundInt(HalfEven, false, N, D) == RoundInt(HalfEven, false, c, P)
  {
    hide RoundInt;
    RoundIntScale(HalfEven, false, N, D, P);
    RoundIntScale(HalfEven, false, c, P, D);
    if inexact {
      var q: nat :| Enclosed(N, D, c, P, q);
      NearestInCell(N, D, c, P, h, q);
    }
  }

  lemma NearestInCell(N: nat, D: nat, c: nat, P: nat, h: nat, q: nat)
    requires D > 0 && h > 0 && P == 20 * h && Enclosed(N, D, c, P, q)
    ensures D * P > 0 && RoundInt(HalfEven, false, N * P, D * P) == RoundInt(HalfEven, false, c * D, P * D)
  {
    var k := q / 10;
    CellOfQuotient(k, D, N * P, q);
    CellOfQuotient'(k, D, c);
    TwentyCells(P, h, D);
    InsideRounds(HalfEven, false, N * P, c * D, k, 10 * D, h, D * P);
  }

  lemma CellOfQuotient(k: nat, D: nat, v: nat, q: nat)
    requires k == q / 10 && q * D < v < (q + 1) * D
    ensures Inside(v, k, 10 * D)
  {
    MulLe(10 * k, q, D);
    MulLe(q + 1, 10 * (k + 1), D);
    assert 10 * k * D == k * (10 * D) && 10 * (k + 1) * D == (k + 1) * (10 * D);
  }

  lemma CellOfQuotient'(k: nat, D: nat, c: nat)
    requires 10 * k < c < 10 * (k + 1) && D > 0
    ensures Inside(c * D, k, 10 * D)
  {
    MulLt(10 * k, c, D);
    MulLt(c, 10 * (k + 1), D);
    assert 10 * k * D == k * (10 * D) && 10 * (k + 1) * D == (k + 1) * (10 * D);
  }

  lemma TwentyCells(P: nat, h: nat, D: nat)
    requires P == 20 * h && h > 0 && D > 0
    ensures D * P == P * D == 2 * h * (10 * D) && D * P > 0
  {
    MulLt(0, h, D);
  }

  // ---- the digits ----

  /** An inexact quotient has at least two digits more than the precision. */
  lemma InexactLength(f: Format, n: nat, d: nat, e: int, s: seq<nat>, e': int)
    requires f.Valid() && AllDigits(s) && Stands(f, n, d, e, Dec(s), e', true)
    ensures |s| >= f.pmax + 2
  {
    hide Pow10, Dec;
    DecBound(s);
    var q: nat :| Truncated(f, n, d, e, Dec(s), e', q);
    if |s| <= f.pmax + 1 {
      Pow10Monotone(|s|, f.pmax + 1);
    }
  }

  /** An exact quotient that is an integer with trailing zeros to come. */
  lemma ExactInteger(f: Format, n: nat, d: nat, e: int, c: nat, k: nat)
    requires d > 0 && Stands(f, n, d, e, c, k, false)
    ensures Denom(d, e) > 0
    ensures Numer(n, e) / Denom(d, e) == c * Pow10(k)
    ensures RoundInt(HalfEven, false, Numer(n, e), Denom(d, e)) == c * Pow10(k)
  {
    hide Pow10;
    Pow10Add(e - k, k);
    MulAssoc(n, Pow10(e - k), Pow10(k));
    Swap(c, d, Pow10(k));
    DivModUnique(n * Pow10(e), d, c * Pow10(k), 0);
  }

  /** Pads an integer quotient with zeros to exponent 0. */
  method PadZeros(buf: array<nat>, msd: nat, lsd: nat, exponent: nat) returns (lsd': nat)
    requires msd <= lsd && lsd + exponent < buf.Length && AllDigits(buf[msd..lsd + 1])
    modifies buf
    ensures lsd' == lsd + exponent && AllDigits(buf[msd..lsd' + 1])
    ensures Dec(buf[msd..lsd' + 1]) == old(Dec(buf[msd..lsd + 1])) * Pow10(exponent)
  {
    ghost var s := buf[msd..lsd + 1];
    var ub := lsd + 1;
    while ub <= lsd + exponent
      invariant lsd < ub <= lsd + exponent + 1
      invariant buf[msd..lsd + 1] == s && forall i :: lsd < i < ub ==> buf[i] == 0
    {
      buf[ub] := 0;
      ub := ub + 1;
    }
    lsd' := lsd + exponent;
    hide Dec, Pow10;
    assert buf[msd..lsd' + 1] == s + buf[lsd + 1..lsd' + 1];
    DecPad(s, buf[lsd + 1..lsd' + 1]);
  }

  lemma ZeroPart(s: seq<nat>, i: nat)
    requires i < |s| && s[i] == 0
    ensures AllDigits(s[i..i + 1]) && Dec(s[i..i + 1]) == 0
  {
    assert s[i..i + 1] == [0];
    DecOne(0);
  }

  /** Simple truncation of the low drop digits. */
  method Truncate(buf: array<nat>, msd: nat, lsd: nat, drop: nat) returns (lsd': nat)
    requires msd <= lsd < buf.Length && AllDigits(buf[msd..lsd + 1]) && drop > 0
    modifies buf
    ensures msd <= lsd' <= lsd && AllDigits(buf[msd..lsd' + 1])
    ensures Dec(buf[msd..lsd' + 1]) == old(Dec(buf[msd..lsd + 1])) / Pow10(drop)
  {
    hide *;
    if lsd - drop < msd {
      lsd' := msd;
      SmallValue(buf[msd..lsd + 1], drop);
      buf[lsd'] := 0;
      ZeroPart(buf[..], msd);
    } else {
      lsd' := lsd - drop;
      DigitsWithin(buf[..], msd, lsd + 1, msd, lsd' + 1);
      DigitsWithin(buf[..], msd, lsd + 1, lsd' + 1, lsd + 1);
      Slices(buf[..], msd, lsd' + 1, lsd + 1);
      CutValue(buf[msd..lsd' + 1], buf[lsd' + 1..lsd + 1]);
    }
  }

  /** Adds one in place; there is a zero to the left for a carry. */
  method BumpDigits(buf: array<nat>, msd: nat, lsd: nat) returns (top: nat)
    requires 0 < msd <= lsd < buf.Length && AllDigits(buf[msd..lsd + 1]) && buf[msd - 1] == 0
    modifies buf
    ensures msd - 1 <= top <= msd && AllDigits(buf[top..lsd + 1])
    ensures Dec(buf[top..lsd + 1]) == old(Dec(buf[msd..lsd + 1])) + 1
  {
    ghost var s, z := buf[msd..lsd + 1], buf[msd - 1..lsd + 1];
    assert z == [0] + s;
    hide Dec, Pow10;
    DecLeading(z, 1);
    assert z[1..] == s && z[0] == 0;
    var carried := Increment(buf, msd - 1, lsd);
    assert !carried;
    top := msd - 1;
    if buf[msd - 1] == 0 {
      top := msd;
      ghost var t := buf[msd - 1..lsd + 1];
      assert t[0] == 0 && t[1..] == buf[msd..lsd + 1];
      DecLeading(t, 1);
    }
  }

  /** Whether dropping the digits condensed to reround bumps a coefficient that ends in last. */
  predicate Bumps(reround: nat, last: nat) {
    reround > 5 || (reround == 5 && last % 2 == 1)
  }

  lemma BumpsNearest(reround: nat, c: nat, p: nat, last: nat)
    requires p > 0 && Places(reround, c % p, p) && last == (c / p) % 10
    ensures RoundInt(HalfEven, false, c, p) == c / p + if Bumps(reround, last) then 1 else 0
  {
    var q := c / p;
    assert last % 2 == q % 2;
  }

  /** Some digits are kept. */
  method NearestKept(buf: array<nat>, msd: nat, lsd: nat, drop: nat) returns (msd': nat, lsd': nat)
    requires 0 < msd <= lsd < buf.Length && AllDigits(buf[msd..lsd + 1]) && 0 < drop < lsd + 1 - msd && buf[msd - 1] == 0
    modifies buf
    ensures msd - 1 <= msd' <= lsd' <= lsd && AllDigits(buf[msd'..lsd' + 1])
    ensures Dec(buf[msd'..lsd' + 1]) == RoundInt(HalfEven, false, old(Dec(buf[msd..lsd + 1])), Pow10(drop))
  {
    ghost var s := buf[msd..lsd + 1];
    hide Dec, Pow10, RoundInt;
    var reround := ReRoundDigit(buf, msd, lsd, drop);
    msd', lsd' := msd, lsd - drop;
    assert buf[msd..lsd' + 1] == s[..|s| - drop];
    DecLastDigit(buf[msd..lsd' + 1]);
    BumpsNearest(reround, Dec(s), Pow10(drop), buf[lsd']);
    if Bumps(reround, buf[lsd']) {
      msd' := BumpDigits(buf, msd, lsd');
    }
  }

  /** No digits are kept: the result is the zero on the left, or one. */
  method NearestGone(buf: array<nat>, msd: nat, lsd: nat, drop: nat) returns (msd': nat)
    requires 0 < msd <= lsd < buf.Length && AllDigits(buf[msd..lsd + 1]) && drop >= lsd + 1 - msd && buf[msd - 1] == 0
    modifies buf
    ensures msd' == msd - 1 && AllDigits(buf[msd'..msd' + 1])
    ensures Dec(buf[msd'..msd' + 1]) == RoundInt(HalfEven, false, old(Dec(buf[msd..lsd + 1])), Pow10(drop))
  {
    ghost var s := buf[msd..lsd + 1];
    hide Dec, Pow10, RoundInt;
    var reround := ReRoundDigit(buf, msd, lsd, drop);
    msd' := msd - 1;
    BumpsNearest(reround, Dec(s), Pow10(drop), buf[msd']);
    if Bumps(reround, buf[msd']) {
      buf[msd'] := buf[msd'] + 1;
    }
    assert buf[msd'..msd' + 1] == [buf[msd']];
    DecOne(buf[msd']);
  }

  /** Rounds to nearest even after dropping drop digits, using the spare digit on the left. */
  method RoundNearest(buf: array<nat>, msd: nat, lsd: nat, drop: nat) returns (msd': nat, lsd': nat)
    requires 0 < msd <= lsd < buf.Length && AllDigits(buf[msd..lsd + 1]) && drop > 0
    modifies buf
    ensures msd - 1 <= msd' <= lsd' <= lsd && AllDigits(buf[msd'..lsd' + 1])
    ensures Dec(buf[msd'..lsd' + 1]) == RoundInt(HalfEven, false, old(Dec(buf[msd..lsd + 1])), Pow10(drop))
  {
    ghost var s := buf[msd..lsd + 1];
    hide Dec, Pow10, RoundInt;
    buf[msd - 1] := 0;
    assert buf[msd..lsd + 1] == s;
    if drop < lsd + 1 - msd {
      msd', lsd' := NearestKept(buf, msd, lsd, drop);
    } else {
      msd' := NearestGone(buf, msd, lsd, drop);
      lsd' := msd';
    }
  }
}
