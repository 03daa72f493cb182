/** Exact multiplication: lazy-carry column sums in base one billion, and their resolution
    (decFiniteMultiply), with 64-bit columns and with pairs of 32-bit words. */
module Multiply {
  import opened Powers
  import opened Billions
  import opened Formats
  import opened LongDivision
  import opened DivideLoop

  /** The two compiled sizes: operands of two or of four units. */
  predicate Compiled(f: Format) {
    Arithmetic(f) && f.OpLen() in {2, 4}
  }

  lemma CompiledFormats()
    ensures Compiled(DOUBLE) && Compiled(QUAD)
  {
  }

  const SQUARE := 999999998000000001 // (BILLION - 1)^2
  const LONG := 0x1_0000_0000_0000_0000

  /** A C uLong: the low 64 bits of a value. */
  function U64(x: nat): (r: nat)
    ensures r < LONG
    ensures x < LONG ==> r == x
  {
    x % LONG
  }

  // ---- columns ----

  /** Adding v in column k adds v billion^k to the number. */
  lemma {:induction false} BillAddAt(s: seq<nat>, k: nat, v: nat)
    requires k < |s|
    ensures Bill(s[k := s[k] + v]) == Bill(s) + PowB(k) * v
  {
    var t := s[k := s[k] + v];
    if k == 0 {
      assert t[1..] == s[1..];
    } else {
      assert t[1..] == s[1..][k - 1 := s[1..][k - 1] + v];
      BillAddAt(s[1..], k - 1, v);
      MulAssoc(BILLION, PowB(k - 1), v);
    }
  }

  /** No column holds more than i products, or i+1 where the current row has been. */
  predicate Columns(s: seq<nat>, i: nat, j: nat) {
    forall k :: 0 <= k < |s| ==> s[k] <= if i <= k < i + j then (i + 1) * SQUARE else i * SQUARE
  }

  /** One product dropped into its column. */
  lemma ColumnStep(s: seq<nat>, i: nat, j: nat, a: nat, b: nat, l: nat)
    requires Columns(s, i, j) && i + j < |s| && i < l <= 4 && a < BILLION && b < BILLION
    ensures a * b >= 0 && s[i + j] + a * b < LONG
    ensures Columns(s[i + j := s[i + j] + a * b], i, j + 1)
  {
    ProductBound(a, b);
    assert (BILLION - 1) * (BILLION - 1) == SQUARE;
  }

  lemma RowValue(base: nat, p: nat, a: nat, before: nat, q: nat, b: nat, v: nat, pq: nat)
    requires v == base + p * (a * before) && pq == p * q
    ensures v + pq * (a * b) == base + p * (a * (before + q * b))
  {
    calc {
      p * (a * (before + q * b));
      p * (a * before + a * (q * b));
      { MulAssoc(a, q, b); MulAssoc(q, a, b); }
      p * (a * before + q * (a * b));
      p * (a * before) + p * (q * (a * b));
      { MulAssoc(p, q, a * b); }
      p * (a * before) + p * q * (a * b);
    }
  }

  /** The value of the columns once j units of a row are in. */
  predicate RowSum(s: seq<nat>, base: nat, i: nat, u: nat, bufl: seq<nat>, j: nat)
    requires j <= |bufl|
  {
    Bill(s) == base + PowB(i) * (u * Bill(bufl[..j]))
  }

  lemma RowBegins(s: seq<nat>, i: nat, u: nat, bufl: seq<nat>)
    ensures RowSum(s, Bill(s), i, u, bufl, 0)
  {
    assert bufl[..0] == [];
    assert Bill([]) == 0 && PowB(i) * (u * 0) == 0;
  }

  lemma RowStep(s: seq<nat>, base: nat, i: nat, u: nat, bufl: seq<nat>, j: nat)
    requires j < |bufl| && i + j < |s| && RowSum(s, base, i, u, bufl, j) && 0 <= u * bufl[j]
    ensures RowSum(s[i + j := s[i + j] + u * bufl[j]], base, i, u, bufl, j + 1)
  {
    hide Bill, PowB;
    BillAddAt(s, i + j, u * bufl[j]);
    assert bufl[..j + 1] == bufl[..j] + [bufl[j]];
    BillSnoc(bufl[..j], bufl[j]);
    PowBAdd(i, j);
    RowValue(base, PowB(i), u, Bill(bufl[..j]), PowB(j), bufl[j], Bill(s), PowB(i + j));
  }

  lemma RowEnds(s: seq<nat>, base: nat, i: nat, u: nat, bufl: seq<nat>)
    requires RowSum(s, base, i, u, bufl, |bufl|) && Columns(s, i, |bufl|)
    ensures Bill(s) == base + PowB(i) * (u * Bill(bufl)) && Columns(s, i + 1, 0)
  {
    assert bufl[..|bufl|] == bufl;
  }

  /** Accumulates one unit of the right operand times the whole left operand. */
  method AddRow(accl: array<nat>, bufl: seq<nat>, i: nat, u: nat)
    requires AllUnits(bufl) && u < BILLION && i < |bufl| <= 4 && accl.Length == 2 * |bufl|
    requires Columns(accl[..], i, 0)
    modifies accl
    ensures Columns(accl[..], i + 1, 0)
    ensures Bill(accl[..]) == old(Bill(accl[..])) + PowB(i) * (u * Bill(bufl))
  {
    ghost var base := Bill(accl[..]);
    assert forall j :: 0 <= j < |bufl| ==> bufl[j] < BILLION;
    hide Bill, PowB, Columns, RowSum, AllUnits;
    RowBegins(accl[..], i, u, bufl);
    for j := 0 to |bufl|
      invariant Columns(accl[..], i, j) && RowSum(accl[..], base, i, u, bufl, j)
    {
      ghost var s := accl[..];
      ColumnStep(s, i, j, u, bufl[j], |bufl|);
      accl[i + j] := U64(accl[i + j] + u * bufl[j]);
      assert accl[..] == s[i + j := s[i + j] + u * bufl[j]];
      RowStep(s, base, i, u, bufl, j);
    }
    RowEnds(accl[..], base, i, u, bufl);
  }

  lemma NextRow(L: nat, R: nat, p: nat, u: nat, v: nat)
    requires v == L * R
    ensures v + p * (u * L) == L * (R + p * u)
  {
    calc {
      L * (R + p * u);
      L * R + L * (p * u);
      { MulAssoc(p, u, L); }
      L * R + p * (u * L);
    }
  }

  /** All partial products, accumulated column by column without carrying. */
  method Accumulate(accl: array<nat>, bufl: seq<nat>, bufr: seq<nat>)
    requires AllUnits(bufl) && AllUnits(bufr) && 0 < |bufl| == |bufr| <= 4 && accl.Length == 2 * |bufl|
    modifies accl
    ensures Columns(accl[..], |bufl|, 0) && Bill(accl[..]) == Bill(bufl) * Bill(bufr)
  {
    for k := 0 to accl.Length
      invariant forall t :: 0 <= t < k ==> accl[t] == 0
    {
      accl[k] := 0;
    }
    BillZeros(accl[..]);
    assert bufr[..0] == [];
    assert Bill([]) == 0;
    hide Bill, PowB;
    for i := 0 to |bufr|
      invariant Columns(accl[..], i, 0)
      invariant Bill(accl[..]) == Bill(bufl) * Bill(bufr[..i])
    {
      assert bufr[..i + 1] == bufr[..i] + [bufr[i]];
      BillSnoc(bufr[..i], bufr[i]);
      NextRow(Bill(bufl), Bill(bufr[..i]), PowB(i), bufr[i], Bill(accl[..]));
      if bufr[i] != 0 {
        AddRow(accl, bufl, i, bufr[i]);
      } else {
        assert Columns(accl[..], i + 1, 0);
        assert PowB(i) * (0 * Bill(bufl)) == 0 && PowB(i) * 0 == 0;
      }
    }
    assert bufr[..|bufr|] == bufr;
  }

  // ---- resolving a column ----

  /** Quotient and remainder of a column sum by a billion, with one multiplication and at
      most one (two units) or two (four units) corrections. */
  method SplitColumn(oplen: nat, x: nat) returns (lo: nat, est: nat)
    requires oplen in {2, 4} && BILLION <= x < oplen * 1000000000000000000
    ensures lo < BILLION && x == est * BILLION + lo
  {
    hide U32;
    if oplen == 2 {
      var hop := U32(x / 0x2000_0000);
      est := U32(hop * MAGIC / WORD);
      Estimate29(x, x / 0x2000_0000, x / 0x2000_0000 * MAGIC / WORD);
    } else {
      var hop := U32(x / 0x4000_0000);
      est := U32(hop * MAGIC / 0x8000_0000);
      Estimate30(x, x / 0x4000_0000, x / 0x4000_0000 * MAGIC / 0x8000_0000);
    }
    lo := U32(x - est * BILLION);
    if lo >= BILLION {
      lo, est := lo - BILLION, est + 1;
      if oplen == 4 && lo >= BILLION {
        lo, est := lo - BILLION, est + 1;
      }
    }
  }

  /** The last column is never split: the number has no more units. */
  lemma TopColumn(low: nat, p: nat, x: nat)
    requires low + p * x < BILLION * p
    ensures x < BILLION
  {
    if x >= BILLION { MulLe(BILLION, x, p); }
  }

  /** Columns below k are resolved into units, and the number is still P. */
  ghost predicate Resolving(acc: seq<nat>, accl: seq<nat>, k: nat, P: nat) {
    && k <= |acc| == |accl| && AllUnits(acc[..k])
    && Bill(acc[..k]) + PowB(k) * Bill(accl[k..]) == P
  }

  /** What a column may hold once a carry has reached it. */
  predicate Carried(oplen: nat, accl: seq<nat>, k: nat) {
    forall t :: k <= t < |accl| ==> accl[t] <= oplen * SQUARE + if t == k then oplen * BILLION else 0
  }

  /** Resolving column k of a number P: unit lo stays, est moves up. */
  lemma ResolveStep(oplen: nat, acc: seq<nat>, acc': seq<nat>, accl: seq<nat>, accl': seq<nat>, k: nat, P: nat, lo: nat, est: nat)
    requires oplen <= 4 && Resolving(acc, accl, k, P) && Carried(oplen, accl, k) && k + 1 < |acc|
    requires lo < BILLION && accl[k] == est * BILLION + lo
    requires |acc'| == |acc| && acc'[..k] == acc[..k] && acc'[k] == lo
    requires |accl'| == |accl| && accl'[k + 1] == accl[k + 1] + est && accl'[k + 2..] == accl[k + 2..]
    ensures Resolving(acc', accl', k + 1, P) && Carried(oplen, accl', k + 1)
  {
    assert acc'[..k + 1] == acc[..k] + [lo];
    BillSnoc(acc[..k], lo);
    assert accl[k..] == [accl[k]] + ([accl[k + 1]] + accl[k + 2..]);
    assert accl'[k + 1..] == [accl[k + 1] + est] + accl[k + 2..];
    var rest := Bill(accl[k + 2..]);
    BillCons(accl[k], [accl[k + 1]] + accl[k + 2..]);
    BillCons(accl[k + 1], accl[k + 2..]);
    BillCons(accl[k + 1] + est, accl[k + 2..]);
    ResolvedUnit(Bill(acc[..k]), PowB(k), lo, est, accl[k + 1] + BILLION * rest);
    forall t | k + 1 < t < |accl|
      ensures accl'[t] == accl[t]
    {
      assert accl'[t] == accl'[k + 2..][t - (k + 2)];
    }
  }

  lemma ResolvedUnit(low: nat, p: nat, lo: nat, est: nat, next: nat)
    ensures low + p * (lo + est * BILLION + BILLION * next) == low + p * lo + BILLION * p * (next + est)
  {
    assert p * (est * BILLION) == BILLION * p * est;
    assert p * (BILLION * next) == BILLION * p * next;
  }

  /** The last column is a unit as it stands. */
  lemma LastIsUnit(acc: seq<nat>, accl: seq<nat>, P: nat)
    requires |acc| > 0 && Resolving(acc, accl, |acc| - 1, P) && P < PowB(|acc|)
    ensures accl[|acc| - 1] < BILLION && Bill(acc[..|acc| - 1]) + PowB(|acc| - 1) * accl[|acc| - 1] == P
  {
    var k := |acc| - 1;
    assert accl[k..] == [accl[k]];
    assert PowB(|acc|) == BILLION * PowB(k) && Bill([accl[k]]) == accl[k];
    hide Bill, PowB;
    TopColumn(Bill(acc[..k]), PowB(k), accl[k]);
  }

  lemma ResolveLast(acc: seq<nat>, acc': seq<nat>, accl: seq<nat>, P: nat)
    requires |acc| > 0 && Resolving(acc, accl, |acc| - 1, P) && P < PowB(|acc|)
    requires |acc'| == |acc| && acc'[..|acc| - 1] == acc[..|acc| - 1] && acc'[|acc| - 1] == accl[|acc| - 1]
    ensures AllUnits(acc') && Bill(acc') == P
  {
    hide Bill, PowB;
    LastIsUnit(acc, accl, P);
    var k := |acc| - 1;
    assert acc' == acc[..k] + [accl[k]];
    BillSnoc(acc[..k], accl[k]);
  }

  /** Resolves the carries from the bottom up. */
  method Resolve(oplen: nat, accl: array<nat>, acc: array<nat>, ghost P: nat)
    requires oplen in {2, 4} && accl != acc && accl.Length == acc.Length == 2 * oplen
    requires Columns(accl[..], oplen, 0) && Bill(accl[..]) == P < PowB(2 * oplen)
    modifies accl, acc
    ensures AllUnits(acc[..]) && Bill(acc[..]) == P
  {
    assert acc[..][..0] == [] && accl[..][0..] == accl[..];
    assert Bill([]) == 0 && PowB(0) == 1;
    hide Bill, PowB;
    for k := 0 to accl.Length
      invariant k < acc.Length ==> Resolving(acc[..], accl[..], k, P) && Carried(oplen, accl[..], k)
      invariant k == acc.Length ==> AllUnits(acc[..]) && Bill(acc[..]) == P
    {
      ghost var acc0, accl0 := acc[..], accl[..];
      hide Resolving;
      if k == acc.Length - 1 {
        LastIsUnit(acc0, accl0, P);
      }
      if accl[k] >= BILLION {
        assert accl[k] == accl0[k];
        var lo, est := SplitColumn(oplen, accl[k]);
        acc[k] := lo;
        accl[k + 1] := U64(accl[k + 1] + est);
        assert accl0[k + 1] == accl0[k + 1 := accl0[k + 1]][k + 1];
        ResolveStep(oplen, acc0, acc[..], accl0, accl[..], k, P, lo, est);
      } else {
        acc[k] := U32(accl[k]);
        if k + 1 < acc.Length {
          ResolveStep(oplen, acc0, acc[..], accl0, accl[..], k, P, accl[k], 0);
        } else {
          ResolveLast(acc0, acc[..], accl0, P);
        }
      }
    }
  }
}
