/** One quotient unit of decDivide: estimate low, subtract, repeat until less than the divisor. */
module QuotientUnits {
  import opened Powers
  import opened Billions
  import opened LongDivision

  /** The divisor's n units, normalised, with the estimator derived from them. */
  ghost predicate Divisor(div: array<nat>, n: nat, divtop: nat)
    reads div
  {
    && 0 < n <= div.Length && AllUnits(div[..n]) && div[n - 1] != 0
    && divtop > 0 && 4 * Bill(div[..n]) <= divtop * PowB(n - 1)
  }

  /** a is q times d with remainder r (r need not be reduced). */
  ghost predicate Splits(a: nat, q: nat, d: nat, r: nat) {
    a == q * d + r
  }

  lemma SplitsAdd(a: nat, q: nat, q': nat, d: nat, r: nat, r': nat)
    requires Splits(a, q, d, r) && Splits(r, q', d, r')
    ensures Splits(a, q + q', d, r')
  {
    assert (q + q') * d == q * d + q' * d;
  }

  /** Drops leading zero units of acc[lsua..msua+1]; possibly all of them. */
  method Strip(acc: array<nat>, lsua: nat, msua: nat) returns (m: int)
    requires lsua <= msua < acc.Length && AllUnits(acc[lsua..msua + 1])
    ensures lsua - 1 <= m <= msua && (m >= lsua ==> acc[m] != 0) && (m < lsua ==> acc[lsua] == 0)
    ensures Bill(acc[lsua..m + 1]) == Bill(acc[lsua..msua + 1]) && AllUnits(acc[lsua..m + 1])
  {
    hide Bill;
    m := msua;
    while m >= lsua && acc[m] == 0
      invariant lsua - 1 <= m <= msua
      invariant forall k :: m < k <= msua ==> acc[k] == 0
    {
      m := m - 1;
    }
    ghost var s := acc[lsua..msua + 1];
    assert s[..m + 1 - lsua] == acc[lsua..m + 1];
    BillLeading(s, m + 1 - lsua);
  }

  lemma UnitCount(w: seq<nat>, d: seq<nat>)
    requires w != [] && d != [] && AllUnits(w) && AllUnits(d) && w[|w| - 1] != 0 && d[|d| - 1] != 0
    ensures Bill(w) < BILLION * Bill(d) ==> |w| <= |d| + 1
    ensures |w| < |d| ==> Bill(w) < Bill(d)
    ensures |w| > |d| ==> Bill(d) < Bill(w)
  {
    hide Bill;
    BillTop(w);
    BillTop(d);
    BillBound(w);
    BillBound(d);
    if |w| < |d| { PowBMonotone(|w|, |d| - 1); }
    if |w| > |d| { PowBMonotone(|d|, |w| - 1); }
    if |w| > |d| + 1 { PowBMonotone(|d| + 1, |w| - 1); }
  }

  /** A positive multiplier whose product with the divisor does not exceed the window. */
  method Estimate(acc: array<nat>, lsua: nat, msua: nat, div: array<nat>, n: nat, divtop: nat) returns (multiplier: nat)
    requires Divisor(div, n, divtop) && lsua <= msua < acc.Length && AllUnits(acc[lsua..msua + 1])
    requires msua + 1 - lsua == n || msua + 1 - lsua == n + 1
    requires Bill(div[..n]) <= Bill(acc[lsua..msua + 1]) < BILLION * Bill(div[..n])
    ensures 0 < multiplier < BILLION && multiplier * Bill(div[..n]) <= Bill(acc[lsua..msua + 1])
  {
    hide Bill, PowB;
    if msua + 1 - lsua == n {
      assert lsua == msua + 1 - n;
      multiplier := EstimateEqual(acc, msua, div, n);
    } else {
      assert lsua == msua - n;
      multiplier := EstimateLonger(acc, msua, div, n, divtop);
    }
    CancelLt(multiplier, BILLION, Bill(div[..n]));
    if multiplier == 0 { multiplier := 1; }
  }

  lemma ZeroWindow(z: seq<nat>, d: seq<nat>)
    requires |z| == 1 && z[0] == 0 && d != [] && d[|d| - 1] != 0
    ensures Bill([]) == Bill(z) == 0 < Bill(d)
  {
    BillTop(d);
  }

  /** One round of the inner loop on the window acc[lsua..msua+1]. */
  method Pass(acc: array<nat>, lsua: nat, msua: nat, div: array<nat>, n: nat, divtop: nat)
    returns (q: nat, msua': nat, done: bool)
    requires acc != div && Divisor(div, n, divtop) && lsua <= msua < acc.Length && AllUnits(acc[lsua..msua + 1])
    requires Bill(acc[lsua..msua + 1]) < BILLION * Bill(div[..n])
    modifies acc
    ensures lsua <= msua' <= msua && AllUnits(acc[lsua..msua' + 1]) && acc[..lsua] == old(acc[..lsua])
    ensures Splits(old(Bill(acc[lsua..msua + 1])), q, Bill(div[..n]), Bill(acc[lsua..msua' + 1]))
    ensures done ==> Bill(acc[lsua..msua' + 1]) < Bill(div[..n])
    ensures done ==> (acc[msua'] == 0 <==> Bill(acc[lsua..msua' + 1]) == 0)
    ensures !done ==> q > 0
  {
    hide Bill, PowB;
    ghost var A, D := Bill(acc[lsua..msua + 1]), Bill(div[..n]);
    var m := Strip(acc, lsua, msua);
    ghost var w := acc[lsua..m + 1];
    var accunits := m + 1 - lsua;
    q, done := 0, true;
    if accunits == 0 {
      msua' := lsua;
      assert w == [];
      ZeroWindow(acc[lsua..lsua + 1], div[..n]);
      return;
    }
    msua' := m;
    assert w[|w| - 1] == acc[m] && div[..n][n - 1] == div[n - 1];
    UnitCount(w, div[..n]);
    BillTop(w);
    if accunits < n {
      return;
    }
    if accunits == n {
      assert lsua == m + 1 - n;
      var c := CompareUnits(acc, m, div, n);
      if c < 0 {
        return;
      }
      if c == 0 {
        q, msua' := 1, lsua;
        acc[msua'] := 0;
        ZeroWindow(acc[lsua..lsua + 1], div[..n]);
        return;
      }
    }
    done := false;
    q := Estimate(acc, lsua, m, div, n, divtop);
    SubtractMultiple(acc, lsua, accunits, div, n, q);
    assert acc[lsua..msua' + 1] == acc[lsua..lsua + accunits];
  }

  /** The inner loop: a whole quotient unit, leaving a reduced remainder in the window. */
  method QuotientUnit(acc: array<nat>, lsua: nat, msua: nat, div: array<nat>, n: nat, divtop: nat)
    returns (unit: nat, msua': nat)
    requires acc != div && Divisor(div, n, divtop) && lsua <= msua < acc.Length && AllUnits(acc[lsua..msua + 1])
    requires Bill(acc[lsua..msua + 1]) < BILLION * Bill(div[..n])
    modifies acc
    ensures lsua <= msua' <= msua && AllUnits(acc[lsua..msua' + 1]) && acc[..lsua] == old(acc[..lsua])
    ensures unit < BILLION
    ensures Splits(old(Bill(acc[lsua..msua + 1])), unit, Bill(div[..n]), Bill(acc[lsua..msua' + 1]))
    ensures Bill(acc[lsua..msua' + 1]) < Bill(div[..n])
    ensures acc[msua'] == 0 <==> Bill(acc[lsua..msua' + 1]) == 0
  {
    ghost var A, D := Bill(acc[lsua..msua + 1]), Bill(div[..n]);
    ghost var R := A;
    unit, msua' := 0, msua;
    assert Splits(A, unit, D, R);
    hide Bill, Divisor, Splits;
    var done := false;
    while !done
      invariant lsua <= msua' <= msua && AllUnits(acc[lsua..msua' + 1]) && acc[..lsua] == old(acc[..lsua])
      invariant R == Bill(acc[lsua..msua' + 1]) <= A
      invariant Divisor(div, n, divtop) && D == Bill(div[..n]) > 0
      invariant Splits(A, unit, D, R)
      invariant done ==> R < D && (acc[msua'] == 0 <==> R == 0)
      decreases !done, R
    {
      var q;
      ghost var R0, unit0 := R, unit;
      q, msua', done := Pass(acc, lsua, msua', div, n, divtop);
      R := Bill(acc[lsua..msua' + 1]);
      SplitsAdd(A, unit0, q, D, R0, R);
      Decreases(R0, q, D, R);
      unit := unit + q;
    }
    UnitBound(A, unit, D, R);
  }

  lemma Decreases(a: nat, q: nat, d: nat, r: nat)
    requires Splits(a, q, d, r) && d > 0
    ensures r <= a && (q > 0 ==> r < a)
  {
    MulLe(0, q, d);
    if q > 0 { MulLe(1, q, d); }
  }

  lemma UnitBound(a: nat, q: nat, d: nat, r: nat)
    requires Splits(a, q, d, r) && a < BILLION * d
    ensures q < BILLION
  {
    CancelLt(q, BILLION, d);
  }
}
