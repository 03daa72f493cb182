/** Decoding a coefficient to digits, trimming a digit string and testing it for zero. */
module Coefficients {
  import opened Powers
  import opened Digits
  import opened Finalize

  /** The n digits of a coefficient, most significant first (GETCOEFF takes them a declet at a time). */
  method GetCoeff(coef: nat, n: nat, buf: array<nat>, at: nat)
    requires coef < Pow10(n) && at + n <= buf.Length
    modifies buf
    ensures AllDigits(buf[at..at + n]) && Dec(buf[at..at + n]) == coef
    ensures forall i :: 0 <= i < buf.Length && !(at <= i < at + n) ==> buf[i] == old(buf[i])
  {
    var rest: nat, k: nat := coef, n;
    assert buf[at + n..at + n] == [] && coef * Pow10(0) == coef;
    hide Dec, Pow10;
    while k > 0
      invariant 0 <= k <= n && AllDigits(buf[at + k..at + n]) && rest < Pow10(k)
      invariant rest * Pow10(n - k) + Dec(buf[at + k..at + n]) == coef
      invariant forall i :: 0 <= i < buf.Length && !(at + k <= i < at + n) ==> buf[i] == old(buf[i])
      decreases k
    {
      ghost var tail := buf[at + k..at + n];
      k := k - 1;
      buf[at + k] := rest % 10;
      assert buf[at + k..at + n] == [rest % 10] + tail;
      NextDigit(rest, k, n, tail, coef);
      rest := rest / 10;
    }
    ZeroRest(rest, n);
  }

  lemma NextDigit(rest: nat, k: nat, n: nat, tail: seq<nat>, coef: nat)
    requires k < n && |tail| == n - k - 1 && rest < Pow10(k + 1)
    requires rest * Pow10(n - k - 1) + Dec(tail) == coef
    ensures rest / 10 < Pow10(k) && rest / 10 * Pow10(n - k) + Dec([rest % 10] + tail) == coef
  {
    hide *;
    DecAppend([rest % 10], tail);
    DecOne(rest % 10);
    Pow10Next(k);
    Pow10Next(n - k - 1);
    DigitMoved(rest, rest / 10, rest % 10, Pow10(n - k - 1));
  }

  lemma DigitMoved(rest: nat, q: nat, r: nat, p: nat)
    requires rest == 10 * q + r
    ensures rest * p == q * (10 * p) + r * p
  {
  }

  lemma ZeroRest(rest: nat, n: nat)
    requires rest < Pow10(0)
    ensures rest * Pow10(n) == 0
  {
  }

  /** Removes leading zeros; what remains has exactly the digits of the coefficient. */
  method Strip(num: BcdNum)
    requires num.Valid()
    modifies num`msd
    ensures num.Valid() && num.Coefficient() == old(num.Coefficient())
    ensures num.lsd + 1 - num.msd == NumDigits(num.Coefficient())
    ensures num.buf[num.msd] == 0 <==> num.Coefficient() == 0
    ensures old(num.msd) <= num.msd <= num.lsd
  {
    hide Dec;
    num.msd := SkipZeros(num.buf, num.msd, num.lsd);
    Trimmed(num.buf[num.msd..num.lsd + 1]);
  }

  lemma Trimmed(s: seq<nat>)
    requires s != [] && AllDigits(s) && (|s| == 1 || s[0] != 0)
    ensures |s| == NumDigits(Dec(s)) && (s[0] == 0 <==> Dec(s) == 0)
  {
    if s[0] != 0 {
      DecLength(s);
      DecZeroOnly(s, 0);
    } else {
      DecZeros(s);
    }
  }

  /** Whether the digits from..to are all zero (ISCOEFFZERO, and the masked last word). */
  method AllZero(buf: array<nat>, from: nat, to: nat) returns (zero: bool)
    requires from <= to <= buf.Length
    ensures zero <==> AllOf(buf[from..to], 0)
  {
    var i := from;
    while i < to
      invariant from <= i <= to && AllOf(buf[from..i], 0)
    {
      if buf[i] != 0 {
        assert buf[from..to][i - from] != 0;
        return false;
      }
      i := i + 1;
    }
    zero := true;
  }
}
