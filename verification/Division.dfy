/** decDivide: division, integer division and the two remainders. */
module Division {
  import opened Powers
  import opened Digits
  import opened Formats
  import opened Rounding
  import opened Finalize
  import opened DivideLoop
  import opened QuotientLayout
  import opened IntegerQuotient

  // ---- the integer quotient of the unrounded number ----

  lemma FloorAtLeast(c: nat, P: nat, b: nat)
    requires P > 0
    ensures c / P >= b <==> c >= b * P
  {
    DivModFact(c, P);
    if c / P >= b {
      MulLe(b, c / P, P);
    } else {
      MulLe(c / P + 1, b, P);
      assert (c / P + 1) * P == c / P * P + P;
    }
  }

  lemma InexactLarge(f: Format, n: nat, d: nat, e: int, c: nat, e': int)
    requires d > 0 && e' >= 0 && Stands(f, n, d, e, c, e', true)
    ensures Denom(d, e) > 0 && Numer(n, e) / Denom(d, e) >= Pow10(f.pmax)
  {
    hide Pow10;
    var q: nat :| Truncated(f, n, d, e, c, e', q);
    Pow10Monotone(e - e', e);
    Pow10Monotone(f.pmax, f.pmax + 1);
    MulLe(Pow10(e - e'), Pow10(e), n);
    FloorAtLeast(n * Pow10(e), d, Pow10(f.pmax));
    MulLe(Pow10(f.pmax), q, d);
  }

  /** The test on the number of digits is a test on the integer quotient. */
  lemma TooLong(f: Format, n: nat, d: nat, e: int, s: seq<nat>, e': int, inexact: bool)
    requires f.Valid() && d > 0 && s != [] && AllDigits(s) && s[0] != 0 && Stands(f, n, d, e, Dec(s), e', inexact)
    ensures Denom(d, e) > 0
    ensures |s| + e' > f.pmax <==> Numer(n, e) / Denom(d, e) >= Pow10(f.pmax)
  {
    hide *;
    var c := Dec(s);
    DenomPositive(d, e);
    DecLength(s);
    if e' >= 0 {
      if inexact {
        InexactLength(f, n, d, e, s, e');
        InexactLarge(f, n, d, e, c, e');
      } else {
        ExactInteger(f, n, d, e, c, e');
        LengthOrder(c, |s|, e', f.pmax);
      }
    } else {
      var drop: nat := 0 - e';
      StandsRepresents(f, n, d, e, c, drop, inexact);
      EvenPower(drop);
      SameFloor(Numer(n, e), Denom(d, e), c, Pow10(drop), inexact);
      FloorAtLeast(c, Pow10(drop), Pow10(f.pmax));
      Pow10Add(f.pmax, drop);
      if |s| - drop > f.pmax {
        Pow10Monotone(f.pmax + drop, |s| - 1);
      } else {
        Pow10Monotone(|s|, f.pmax + drop);
      }
    }
  }

  lemma EvenPower(n: nat)
    requires n > 0
    ensures Pow10(n) % 2 == 0
  {
    assert Pow10(n) == 2 * (5 * Pow10(n - 1));
  }

  lemma LengthOrder(c: nat, len: nat, k: nat, p: nat)
    requires len > 0 && Pow10(len - 1) <= c < Pow10(len)
    ensures len + k > p <==> c * Pow10(k) >= Pow10(p)
  {
    hide Pow10;
    Pow10Add(len - 1, k);
    Pow10Add(len, k);
    MulLe(Pow10(len - 1), c, Pow10(k));
    MulLt(c, Pow10(len), Pow10(k));
    if len + k > p {
      Pow10Monotone(p, len - 1 + k);
    } else {
      Pow10Monotone(len + k, p);
    }
  }

  lemma TwentyFold(drop: nat) returns (h: nat)
    requires drop >= 2
    ensures h > 0 && Pow10(drop) == 20 * h
  {
    h := 5 * Pow10(drop - 2);
    assert Pow10(drop) == 10 * (10 * Pow10(drop - 2));
  }

  /** The integer a division is turned into: truncated, or the nearest with ties to even. */
  function IntegerOf(near: bool, N: nat, D: nat): nat
    requires D > 0
  {
    if near then RoundInt(HalfEven, false, N, D) else N / D
  }

  /** Drops the digits below the units place. */
  method DropToInteger(buf: array<nat>, msd: nat, lsd: nat, drop: nat, near: bool, ghost N: nat, ghost D: nat, ghost inexact: bool)
    returns (msd': nat, lsd': nat)
    requires 0 < msd <= lsd < buf.Length && AllDigits(buf[msd..lsd + 1]) && drop > 0 && (inexact ==> drop >= 2) && D > 0
    requires Represents(N, D, Dec(buf[msd..lsd + 1]), Pow10(drop), inexact)
    modifies buf
    ensures msd' <= lsd' <= lsd && AllDigits(buf[msd'..lsd' + 1]) && Dec(buf[msd'..lsd' + 1]) == IntegerOf(near, N, D)
  {
    EvenPower(drop);
    hide Dec, Pow10, RoundInt, Represents, AllDigits;
    if !near {
      SameFloor(N, D, Dec(buf[msd..lsd + 1]), Pow10(drop), inexact);
      msd' := msd;
      lsd' := Truncate(buf, msd, lsd, drop);
    } else {
      ghost var h := 0;
      if inexact { h := TwentyFold(drop); }
      SameNearest(N, D, Dec(buf[msd..lsd + 1]), Pow10(drop), h, inexact);
      msd', lsd' := RoundNearest(buf, msd, lsd, drop);
    }
  }

  /** The unrounded quotient at exponent e' as an integer, in place. */
  method IntegerDigits(f: Format, buf: array<nat>, msd: nat, lsd: nat, e': int, near: bool,
                       ghost n: nat, ghost d: nat, ghost e: int, ghost inexact: bool)
    returns (msd': nat, lsd': nat)
    requires f.Valid() && d > 0 && 0 < msd <= lsd < buf.Length && AllDigits(buf[msd..lsd + 1]) && msd + f.pmax <= buf.Length
    requires Stands(f, n, d, e, Dec(buf[msd..lsd + 1]), e', inexact) && lsd + 1 - msd + e' <= f.pmax
    modifies buf
    ensures Denom(d, e) > 0
    ensures msd' <= lsd' < buf.Length && AllDigits(buf[msd'..lsd' + 1])
    ensures Dec(buf[msd'..lsd' + 1]) == IntegerOf(near, Numer(n, e), Denom(d, e))
  {
    DenomPositive(d, e);
    hide Dec, Pow10, Stands, Numer, Denom, RoundInt, Represents, AllDigits;
    if inexact {
      InexactLength(f, n, d, e, buf[msd..lsd + 1], e');
    }
    if e' >= 0 {
      ExactInteger(f, n, d, e, Dec(buf[msd..lsd + 1]), e');
      msd' := msd;
      lsd' := PadZeros(buf, msd, lsd, e');
    } else {
      var drop: nat := 0 - e';
      StandsRepresents(f, n, d, e, Dec(buf[msd..lsd + 1]), drop, inexact);
      msd', lsd' := DropToInteger(buf, msd, lsd, drop, near, Numer(n, e), Denom(d, e), inexact);
    }
  }

  lemma IntegerRoom(f: Format, num: BcdNum)
    requires Arithmetic(f) && num.Valid() && num.buf.Length == 9 * (f.OpLen() + 1) + 2
    requires LaidOut(num.buf[..], num.msd, num.lsd, num.Coefficient())
    ensures f.Valid() && 0 < num.msd <= num.lsd < num.buf.Length && num.msd + f.pmax <= num.buf.Length
    ensures AllDigits(num.buf[num.msd..num.lsd + 1]) && num.Coefficient() == Dec(num.buf[num.msd..num.lsd + 1])
  {
    hide Dec;
    OpLenFacts(f);
  }

  /** Makes the unrounded quotient an integer with exponent 0. */
  method MakeInteger(f: Format, num: BcdNum, near: bool, ghost n: nat, ghost d: nat, ghost e: int, ghost inexact: bool)
    requires Arithmetic(f) && d > 0 && num.Valid() && num.buf.Length == 9 * (f.OpLen() + 1) + 2
    requires LaidOut(num.buf[..], num.msd, num.lsd, num.Coefficient())
    requires Stands(f, n, d, e, num.Coefficient(), num.exponent, inexact)
    requires num.lsd + 1 - num.msd + num.exponent <= f.pmax
    modifies num`msd, num`lsd, num`exponent, num.buf
    ensures Denom(d, e) > 0
    ensures num.Valid() && num.exponent == 0 && num.Coefficient() == IntegerOf(near, Numer(n, e), Denom(d, e))
  {
    hide Dec, Pow10, LaidOut, Stands, Numer, Denom, RoundInt, IntegerOf, Arithmetic, AllDigits;
    IntegerRoom(f, num);
    var msd, lsd := IntegerDigits(f, num.buf, num.msd, num.lsd, num.exponent, near, n, d, e, inexact);
    num.msd, num.lsd, num.exponent := msd, lsd, 0;
  }
}
