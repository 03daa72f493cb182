/** Numbers in base one billion, least significant unit first. */
module Billions {
  import opened Powers

  const BILLION := 1000000000

  function Bill(s: seq<nat>): nat {
    if s == [] then 0 else s[0] + BILLION * Bill(s[1..])
  }

  predicate AllUnits(s: seq<nat>) {
    forall i :: 0 <= i < |s| ==> s[i] < BILLION
  }

  function PowB(n: nat): (p: nat)
    ensures p >= 1
  {
    if n == 0 then 1 else BILLION * PowB(n - 1)
  }

  lemma {:induction false} PowBIsPow10(n: nat)
    ensures PowB(n) == Pow10(9 * n)
  {
    if n > 0 {
      PowBIsPow10(n - 1);
      Pow10Add(9, 9 * (n - 1));
      Pow10Nine();
    }
  }

  lemma Pow10Nine()
    ensures Pow10(9) == BILLION
  {
    Pow10Add(4, 5);
    assert Pow10(4) == 10000 && Pow10(5) == 100000;
  }

  lemma {:induction false} PowBAdd(a: nat, b: nat)
    ensures PowB(a + b) == PowB(a) * PowB(b)
  {
    if a > 0 {
      PowBAdd(a - 1, b);
      MulAssoc(BILLION, PowB(a - 1), PowB(b));
    }
  }

  lemma {:induction false} PowBMonotone(a: nat, b: nat)
    requires a <= b
    ensures PowB(a) <= PowB(b)
    decreases b
  {
    if a < b {
      PowBMonotone(a, b - 1);
    }
  }

  lemma {:induction false} BillAppend(a: seq<nat>, b: seq<nat>)
    ensures Bill(a + b) == Bill(a) + PowB(|a|) * Bill(b)
  {
    if a == [] {
      assert a + b == b;
    } else {
      assert (a + b)[1..] == a[1..] + b;
      BillAppend(a[1..], b);
      MulAssoc(BILLION, PowB(|a| - 1), Bill(b));
    }
  }

  lemma BillSnoc(s: seq<nat>, u: nat)
    ensures Bill(s + [u]) == Bill(s) + PowB(|s|) * u
  {
    BillAppend(s, [u]);
    assert Bill([u]) == u;
  }

  lemma BillCons(u: nat, s: seq<nat>)
    ensures Bill([u] + s) == u + BILLION * Bill(s)
  {
    assert ([u] + s)[1..] == s;
  }

  lemma {:induction false} BillBound(s: seq<nat>)
    requires AllUnits(s)
    ensures Bill(s) < PowB(|s|)
  {
    if s != [] {
      BillBound(s[1..]);
    }
  }

  lemma {:induction false} BillZeros(s: seq<nat>)
    requires forall i :: 0 <= i < |s| ==> s[i] == 0
    ensures Bill(s) == 0
  {
    if s != [] {
      BillZeros(s[1..]);
    }
  }

  /** A non-zero top unit bounds the number from below. */
  lemma BillTop(s: seq<nat>)
    requires s != [] && s[|s| - 1] != 0
    ensures PowB(|s| - 1) <= Bill(s)
  {
    var n := |s| - 1;
    assert s == s[..n] + [s[n]];
    BillSnoc(s[..n], s[n]);
    MulLe(1, s[n], PowB(n));
  }

  /** Zero units at the top are insignificant. */
  lemma BillLeading(s: seq<nat>, n: nat)
    requires n <= |s| && forall i :: n <= i < |s| ==> s[i] == 0
    ensures Bill(s) == Bill(s[..n])
  {
    assert s == s[..n] + s[n..];
    BillAppend(s[..n], s[n..]);
    BillZeros(s[n..]);
  }

  /** Cutting after the n low units. */
  lemma BillCut(s: seq<nat>, n: nat)
    requires n <= |s|
    ensures Bill(s) == Bill(s[..n]) + PowB(n) * Bill(s[n..])
  {
    assert s == s[..n] + s[n..];
    BillAppend(s[..n], s[n..]);
  }

  /** Unit strings of one length are told apart by their values. */
  lemma {:induction false} BillInjective(a: seq<nat>, b: seq<nat>)
    requires |a| == |b| && AllUnits(a) && AllUnits(b) && Bill(a) == Bill(b)
    ensures a == b
  {
    if a != [] {
      BillInjective(a[1..], b[1..]);
      assert a == [a[0]] + a[1..] && b == [b[0]] + b[1..];
    }
  }

  // ---- 32-bit arithmetic and the reciprocal split ----

  const WORD := 0x1_0000_0000

  /** A C uInt: the low 32 bits of a value. */
  function U32(x: int): (r: nat)
    ensures r < WORD
    ensures 0 <= x < WORD ==> r == x
  {
    x % WORD
  }

  /** Splitting X = q*10^9 + r with one 32x32 multiplication by 2^61/10^9 and two shifts. */
  const MAGIC := 2305843009

  /** The quotient estimate with shifts 29 and 32 is never high, and low by at most 1. */
  lemma Estimate29(x: nat, hop: nat, est: nat)
    requires x < 2000000000000000000
    requires hop == x / 0x2000_0000 && est == hop * MAGIC / WORD
    ensures hop < WORD && est < WORD && hop * MAGIC < WORD * WORD
    ensures est * BILLION <= x < (est + 2) * BILLION
  {
  }

  /** With shifts 30 and 31 it is never high, and low by at most 2. */
  lemma Estimate30(x: nat, hop: nat, est: nat)
    requires x < 4000000000000000000
    requires hop == x / 0x4000_0000 && est == hop * MAGIC / 0x8000_0000
    ensures hop < WORD && est < WORD && hop * MAGIC < WORD * WORD
    ensures est * BILLION <= x < (est + 3) * BILLION
  {
  }

  /** Subtracting in 32 bits loses nothing when the true difference is that small. */
  lemma LowWord(x: int, y: int)
    requires 0 <= x - y < WORD
    ensures U32(U32(x) - U32(y)) == x - y
  {
  }
}
