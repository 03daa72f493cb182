/** The same multiplication where only 32-bit words are available. */
module Multiply32 {
  import opened Powers
  import opened Billions
  import opened LongDivision
  import opened Multiply

  const HALF := 0x1_0000

  /** The high word of a 32x32 product, from 16-bit halves (LONGMUL32HI). */
  method LongMul32Hi(u: nat, v: nat) returns (w: nat)
    requires u < WORD && v < WORD
    ensures w == u * v / WORD
  {
    var u0, u1, v0, v1 := u % HALF, u / HALF, v % HALF, v / HALF;
    HalfProducts(u0, v0);
    HalfProducts(u1, v0);
    HalfProducts(u0, v1);
    HalfProducts(u1, v1);
    var w0 := U32(u0 * v0);
    var t := U32(u1 * v0 + w0 / HALF);
    var w1, w2 := t % HALF, t / HALF;
    w1 := U32(u0 * v1 + w1);
    Halves(u0, u1, v0, v1);
    HighWord(u * v, u1 * v1, u1 * v0, u0 * v1, u0 * v0);
    w := U32(u1 * v1 + w2 + w1 / HALF);
  }

  lemma HalfProducts(a: nat, b: nat)
    requires a < HALF && b < HALF
    ensures 0 <= a * b <= (HALF - 1) * (HALF - 1)
  {
    MulLe(0, a, b);
    MulLe(a, HALF - 1, b);
  }

  lemma Halves(u0: nat, u1: nat, v0: nat, v1: nat)
    ensures (u1 * HALF + u0) * (v1 * HALF + v0) == WORD * (u1 * v1) + HALF * (u1 * v0) + HALF * (u0 * v1) + u0 * v0
  {
  }

  /** The high word, from the four half products. */
  lemma HighWord(p: nat, a: nat, b: nat, c: nat, d: nat)
    requires p == WORD * a + HALF * b + HALF * c + d && p < WORD * WORD
    requires a <= (HALF - 1) * (HALF - 1) && b <= (HALF - 1) * (HALF - 1)
    requires c <= (HALF - 1) * (HALF - 1) && d <= (HALF - 1) * (HALF - 1)
    ensures var t := b + d / HALF;
      var w1 := c + t % HALF;
      d < WORD && t < WORD && w1 < WORD && a + t / HALF + w1 / HALF == p / WORD < WORD
  {
    var t := b + d / HALF;
    var w1 := c + t % HALF;
    assert p == WORD * (a + t / HALF + w1 / HALF) + HALF * (w1 % HALF) + d % HALF;
  }

  /** Each column as the number its two words make. */
  function Paired(acc: seq<nat>, n: nat): (s: seq<nat>)
    requires |acc| == 2 * n
    ensures |s| == n
  {
    seq(n, k requires 0 <= k < n => acc[k] + WORD * acc[n + k])
  }

  predicate Words(acc: seq<nat>) {
    forall i :: 0 <= i < |acc| ==> acc[i] < WORD
  }

  /** Adding two words into a pair of words, with the carry found by comparison. */
  method AddPair(acc: array<nat>, n: nat, k: nat, hi: nat, lo: nat)
    requires acc.Length == 2 * n && k < n && Words(acc[..]) && hi < WORD && lo < WORD
    requires Paired(acc[..], n)[k] + (lo + WORD * hi) < LONG
    modifies acc
    ensures Words(acc[..])
    ensures Paired(acc[..], n) == old(Paired(acc[..], n)[k := Paired(acc[..], n)[k] + (lo + WORD * hi)])
    ensures forall i :: 0 <= i < n && i != k ==> acc[i] == old(acc[i])
  {
    ghost var s: seq<nat> := acc[..];
    AddCarry(acc[k], acc[n + k], lo, hi);
    acc[k] := U32(acc[k] + lo);
    acc[n + k] := U32(acc[n + k] + hi + if acc[k] < lo then 1 else 0);
    var low: nat, high: nat := acc[k], acc[n + k];
    assert acc[..] == s[k := low][n + k := high];
    assert Paired(acc[..], n) == Paired(s, n)[k := acc[k] + WORD * acc[n + k]];
  }

  /** The carry out of a 32-bit addition is seen in the sum being smaller than an operand. */
  lemma AddCarry(a: nat, b: nat, lo: nat, hi: nat)
    requires a < WORD && b < WORD && lo < WORD && hi < WORD && a + WORD * b + (lo + WORD * hi) < LONG
    ensures var a' := U32(a + lo);
      a' + WORD * U32(b + hi + if a' < lo then 1 else 0) == a + WORD * b + (lo + WORD * hi)
  {
  }

  /** One row of partial products. */
  method AddRow32(acc: array<nat>, bufl: seq<nat>, i: nat, u: nat)
    requires AllUnits(bufl) && u < BILLION && i < |bufl| <= 4 && acc.Length == 4 * |bufl| && Words(acc[..])
    requires Columns(Paired(acc[..], 2 * |bufl|), i, 0)
    modifies acc
    ensures Words(acc[..]) && Columns(Paired(acc[..], 2 * |bufl|), i + 1, 0)
    ensures Bill(Paired(acc[..], 2 * |bufl|)) == old(Bill(Paired(acc[..], 2 * |bufl|))) + PowB(i) * (u * Bill(bufl))
  {
    var n := 2 * |bufl|;
    ghost var base := Bill(Paired(acc[..], n));
    assert forall j :: 0 <= j < |bufl| ==> bufl[j] < BILLION;
    hide Bill, PowB, Columns, Paired, Words, AllUnits, RowSum;
    RowBegins(Paired(acc[..], n), i, u, bufl);
    for j := 0 to |bufl|
      invariant Words(acc[..]) && Columns(Paired(acc[..], n), i, j) && RowSum(Paired(acc[..], n), base, i, u, bufl, j)
    {
      ghost var s := Paired(acc[..], n);
      ColumnStep(s, i, j, u, bufl[j], |bufl|);
      ProductBound(u, bufl[j]);
      var hi := LongMul32Hi(u, bufl[j]);
      var lo := U32(u * bufl[j]);
      AddPair(acc, n, i + j, hi, lo);
      assert Paired(acc[..], n) == s[i + j := s[i + j] + u * bufl[j]];
      RowStep(s, base, i, u, bufl, j);
    }
    RowEnds(Paired(acc[..], n), base, i, u, bufl);
  }

  /** All partial products, column by column, in pairs of words. */
  method Accumulate32(acc: array<nat>, bufl: seq<nat>, bufr: seq<nat>)
    requires AllUnits(bufl) && AllUnits(bufr) && 0 < |bufl| == |bufr| <= 4 && acc.Length == 4 * |bufl|
    modifies acc
    ensures Words(acc[..]) && Columns(Paired(acc[..], 2 * |bufl|), |bufl|, 0)
    ensures Bill(Paired(acc[..], 2 * |bufl|)) == Bill(bufl) * Bill(bufr)
  {
    for k := 0 to acc.Length
      invariant forall t :: 0 <= t < k ==> acc[t] == 0
    {
      acc[k] := 0;
    }
    BillZeros(Paired(acc[..], 2 * |bufl|));
    assert bufr[..0] == [];
    assert Bill([]) == 0;
    assert forall i :: 0 <= i < |bufr| ==> bufr[i] < BILLION;
    hide Bill, PowB, Columns, Paired, Words, AllUnits;
    for i := 0 to |bufr|
      invariant Words(acc[..]) && Columns(Paired(acc[..], 2 * |bufl|), i, 0)
      invariant Bill(Paired(acc[..], 2 * |bufl|)) == Bill(bufl) * Bill(bufr[..i])
    {
      assert bufr[..i + 1] == bufr[..i] + [bufr[i]];
      BillSnoc(bufr[..i], bufr[i]);
      NextRow(Bill(bufl), Bill(bufr[..i]), PowB(i), bufr[i], Bill(Paired(acc[..], 2 * |bufl|)));
      AddRow32(acc, bufl, i, bufr[i]);
    }
    assert bufr[..|bufr|] == bufr;
  }

  /** The column hi:lo split by a billion in 32-bit arithmetic. */
  method SplitPair(oplen: nat, hi: nat, low: nat) returns (lo: nat, est: nat)
    requires oplen in {2, 4} && low < WORD && hi < WORD && low + WORD * hi < oplen * 1000000000000000000
    ensures lo < BILLION && est < WORD && low + WORD * hi == est * BILLION + lo
  {
    var x := low + WORD * hi;
    if oplen == 2 {
      var hop := U32(U32(hi * 8) + low / 0x2000_0000);
      Estimate29(x, x / 0x2000_0000, x / 0x2000_0000 * MAGIC / WORD);
      assert hop == x / 0x2000_0000;
      est := LongMul32Hi(hop, MAGIC);
    } else {
      var hop := U32(U32(hi * 4) + low / 0x4000_0000);
      Estimate30(x, x / 0x4000_0000, x / 0x4000_0000 * MAGIC / 0x8000_0000);
      assert hop == x / 0x4000_0000;
      var esthi := LongMul32Hi(hop, MAGIC);
      var estlo := U32(hop * MAGIC);
      est := U32(esthi * 2) + estlo / 0x8000_0000;
      DoubledHigh(hop * MAGIC);
    }
    assert est * BILLION <= x < (est + 3) * BILLION && est < WORD;
    assert oplen == 2 ==> x < (est + 2) * BILLION;
    LowWord(x, est * BILLION);
    LowOfPair(x, hi, low);
    lo := U32(low - U32(est * BILLION));
    if lo >= BILLION {
      lo, est := lo - BILLION, est + 1;
    }
    if oplen == 4 && lo >= BILLION {
      lo, est := lo - BILLION, est + 1;
    }
  }

  lemma DoubledHigh(p: nat)
    ensures p / WORD * 2 + p % WORD / 0x8000_0000 == p / 0x8000_0000
  {
  }

  lemma LowOfPair(x: nat, hi: nat, low: nat)
    requires x == low + WORD * hi && low < WORD
    ensures U32(x) == low
  {
  }

  /** One column resolved: its digit stays in the low word, the estimate moves up. */
  method ResolveColumn32(oplen: nat, acc: array<nat>, k: nat, ghost P: nat)
    requires oplen in {2, 4} && acc.Length == 4 * oplen && k + 1 < 2 * oplen && Words(acc[..])
    requires Resolving(acc[..][..2 * oplen], Paired(acc[..], 2 * oplen), k, P) && Carried(oplen, Paired(acc[..], 2 * oplen), k)
    modifies acc
    ensures Words(acc[..])
    ensures Resolving(acc[..][..2 * oplen], Paired(acc[..], 2 * oplen), k + 1, P)
    ensures Carried(oplen, Paired(acc[..], 2 * oplen), k + 1)
  {
    var n := 2 * oplen;
    ghost var acc0, accl0 := acc[..], Paired(acc[..], n);
    assert accl0[k] == acc[k] + WORD * acc[n + k] && accl0[k + 1] == acc[k + 1] + WORD * acc[n + k + 1];
    assert accl0[k] < oplen * 1000000000000000000 && accl0[k + 1] < oplen * 1000000000000000000;
    var lo, est := SplitPair(oplen, acc[n + k], acc[k]);
    acc[k] := lo;
    assert Paired(acc[..], n)[k + 1..] == accl0[k + 1..];
    ghost var accl1 := Paired(acc[..], n);
    assert accl1[k + 1] == accl1[k + 1..][0] == accl0[k + 1..][0] == accl0[k + 1];
    hide Paired, Resolving, Carried;
    AddPair(acc, n, k + 1, 0, est);
    assert Paired(acc[..], n)[k + 2..] == accl1[k + 1..][1..] == accl0[k + 1..][1..] == accl0[k + 2..];
    ResolveStep(oplen, acc0[..n], acc[..][..n], accl0, Paired(acc[..], n), k, P, lo, est);
  }

  /** Carries resolved from the bottom up, leaving the digits in the low words. */
  method Resolve32(oplen: nat, acc: array<nat>, ghost P: nat)
    requires oplen in {2, 4} && acc.Length == 4 * oplen && Words(acc[..])
    requires Columns(Paired(acc[..], 2 * oplen), oplen, 0) && Bill(Paired(acc[..], 2 * oplen)) == P < PowB(2 * oplen)
    modifies acc
    ensures AllUnits(acc[..2 * oplen]) && Bill(acc[..2 * oplen]) == P
  {
    ghost var accl := Paired(acc[..], 2 * oplen);
    assert accl[0..] == accl && acc[..][..2 * oplen][..0] == [];
    assert Bill([]) == 0 && PowB(0) == 1;
    assert Resolving(acc[..][..2 * oplen], accl, 0, P) && Carried(oplen, accl, 0);
    hide Bill, PowB, Resolving, Carried, Paired, Words;
    for k := 0 to 2 * oplen - 1
      invariant Words(acc[..])
      invariant Resolving(acc[..][..2 * oplen], Paired(acc[..], 2 * oplen), k, P)
      invariant Carried(oplen, Paired(acc[..], 2 * oplen), k)
    {
      ResolveColumn32(oplen, acc, k, P);
    }
    LastPair(oplen, acc[..], P);
    assert acc[..][..2 * oplen] == acc[..2 * oplen];
  }

  lemma LastPair(oplen: nat, acc: seq<nat>, P: nat)
    requires oplen > 0 && |acc| == 4 * oplen && Words(acc) && P < PowB(2 * oplen)
    requires Resolving(acc[..2 * oplen], Paired(acc, 2 * oplen), 2 * oplen - 1, P)
    ensures AllUnits(acc[..2 * oplen]) && Bill(acc[..2 * oplen]) == P
  {
    hide Bill, PowB;
    var n := 2 * oplen;
    var low, accl := acc[..n], Paired(acc, n);
    LastIsUnit(low, accl, P);
    assert accl[n - 1] == acc[n - 1] + WORD * acc[n + (n - 1)];
    assert low == low[..n - 1] + [accl[n - 1]];
    BillSnoc(low[..n - 1], accl[n - 1]);
  }

  /** The two implementations leave the same digits. */
  lemma SameDigits(acc64: seq<nat>, acc32: seq<nat>, P: nat)
    requires |acc64| == |acc32| && AllUnits(acc64) && AllUnits(acc32) && Bill(acc64) == P && Bill(acc32) == P
    ensures acc64 == acc32
  {
    BillInjective(acc64, acc32);
  }
}
