/** The base-billion long division at the heart of decDivide. */
module LongDivision {
  import opened Powers
  import opened Billions
  import opened Formats

  /** Lays out a coefficient as base-billion units (GETCOEFFBILL). */
  method GetCoeffBill(f: Format, coef: nat, arr: array<nat>, off: nat)
    requires coef < Pow10(f.pmax) && off + f.OpLen() <= arr.Length
    modifies arr
    ensures AllUnits(arr[off..off + f.OpLen()]) && Bill(arr[off..off + f.OpLen()]) == coef
    ensures forall i :: 0 <= i < arr.Length && !(off <= i < off + f.OpLen()) ==> arr[i] == old(arr[i])
  {
    var rest := LowUnits(coef, arr, off, f.OpLen());
    Exhausted(f, Bill(arr[off..off + f.OpLen()]), rest, coef);
  }

  /** The n low units of a number, and what is left above them. */
  method LowUnits(coef: nat, arr: array<nat>, off: nat, n: nat) returns (rest: nat)
    requires off + n <= arr.Length
    modifies arr
    ensures AllUnits(arr[off..off + n]) && Bill(arr[off..off + n]) + PowB(n) * rest == coef
    ensures forall i :: 0 <= i < arr.Length && !(off <= i < off + n) ==> arr[i] == old(arr[i])
  {
    rest := coef;
    assert Bill(arr[off..off]) == 0 && PowB(0) == 1;
    hide Bill, PowB;
    for i := 0 to n
      invariant AllUnits(arr[off..off + i])
      invariant Bill(arr[off..off + i]) + PowB(i) * rest == coef
      invariant forall k :: 0 <= k < arr.Length && !(off <= k < off + i) ==> arr[k] == old(arr[k])
    {
      ghost var s := arr[off..off + i];
      arr[off + i] := rest % BILLION;
      assert arr[off..off + i + 1] == s + [rest % BILLION];
      BillSnoc(s, rest % BILLION);
      PowBNext(i);
      NextUnit(PowB(i), rest);
      rest := rest / BILLION;
    }
  }

  lemma PowBNext(i: nat)
    ensures PowB(i + 1) == BILLION * PowB(i)
  {
  }

  lemma NextUnit(p: nat, rest: nat)
    ensures p * rest == p * (rest % BILLION) + BILLION * p * (rest / BILLION)
  {
    assert rest == rest % BILLION + BILLION * (rest / BILLION);
    MulAssoc(p, BILLION, rest / BILLION);
  }

  lemma Exhausted(f: Format, low: nat, rest: nat, coef: nat)
    requires low + PowB(f.OpLen()) * rest == coef < Pow10(f.pmax)
    ensures low == coef
  {
    PowBIsPow10(f.OpLen());
    Pow10Monotone(f.pmax, 9 * f.OpLen());
    if rest > 0 { MulLe(1, rest, PowB(f.OpLen())); }
  }

  /** Splits a product plus carry into a base-billion unit and a carry, in 64-bit arithmetic
      with a reciprocal multiplication instead of a division. */
  method SplitUnit(sub: nat) returns (lo: nat, carry: nat)
    requires sub < BILLION * BILLION
    ensures lo < BILLION && carry < BILLION && lo + BILLION * carry == sub
  {
    hide U32;
    if sub < BILLION {
      carry, lo := 0, sub;
    } else {
      var hop := U32(sub / 0x2000_0000);
      carry := U32(hop * MAGIC / WORD);
      Estimate29(sub, sub / 0x2000_0000, sub / 0x2000_0000 * MAGIC / WORD);
      LowWord(sub, carry * BILLION);
      lo := U32(U32(sub) - U32(carry * BILLION));
      if lo >= BILLION {
        lo := lo - BILLION;
        carry := carry + 1;
      }
    }
  }

  lemma ProductBound(a: nat, b: nat)
    requires a < BILLION && b < BILLION
    ensures 0 <= a * b <= (BILLION - 1) * (BILLION - 1)
  {
    MulLe(a, BILLION - 1, b);
    MulLe(0, a, b);
  }

  /** acc -= multiplier*div over the units from lsua up, with carries and borrows. */
  method SubtractMultiple(acc: array<nat>, lsua: nat, accunits: nat, div: array<nat>, n: nat, multiplier: nat)
    requires acc != div && n <= div.Length && lsua + accunits <= acc.Length && (accunits == n || accunits == n + 1)
    requires AllUnits(acc[lsua..lsua + accunits]) && AllUnits(div[..n]) && multiplier < BILLION
    requires multiplier * Bill(div[..n]) <= Bill(acc[lsua..lsua + accunits])
    modifies acc
    ensures AllUnits(acc[lsua..lsua + accunits])
    ensures Bill(acc[lsua..lsua + accunits]) == old(Bill(acc[lsua..lsua + accunits])) - multiplier * Bill(div[..n])
    ensures acc[..lsua] == old(acc[..lsua]) && acc[lsua + accunits..] == old(acc[lsua + accunits..])
  {
    hide Owed, Bill, PowB;
    ghost var was := acc[lsua..lsua + accunits];
    assert acc[lsua..lsua + n] == was[..n];
    var carry := SubtractLow(acc, lsua, div, n, multiplier);
    ghost var low := acc[lsua..lsua + n];
    if accunits == n {
      assert was[..n] == was;
      Settled(low, was, div[..n], multiplier, carry);
    } else {
      var top := acc[lsua + n];
      assert acc[lsua + n] == acc[..][lsua + n] == was[n];
      assert was == was[..n] + [top];
      SettledTop(low, was[..n], top, div[..n], multiplier, carry);
      if carry != 0 {
        acc[lsua + n] := top - carry;
      }
      assert acc[lsua..lsua + accunits] == low + [top - carry];
    }
  }

  lemma Settled(low: seq<nat>, a: seq<nat>, d: seq<nat>, m: nat, carry: nat)
    requires Owed(low, a, d, |a|, m, carry) && m * Bill(d) <= Bill(a)
    ensures Bill(low) == Bill(a) - m * Bill(d) && AllUnits(low)
  {
    hide Bill, PowB;
    assert a[..|a|] == a && d[..|a|] == d;
    BillBound(low);
    MulLe(0, m, Bill(d));
    NoCarryOut(Bill(a), m * Bill(d), Bill(low), carry, PowB(|a|));
  }

  lemma SettledTop(low: seq<nat>, a: seq<nat>, top: nat, d: seq<nat>, m: nat, carry: nat)
    requires Owed(low, a, d, |a|, m, carry) && top < BILLION && m * Bill(d) <= Bill(a + [top])
    ensures carry <= top && AllUnits(low + [top - carry])
    ensures Bill(low + [top - carry]) == Bill(a + [top]) - m * Bill(d)
  {
    assert a[..|a|] == a && d[..|a|] == d;
    BillBound(low);
    BillSnoc(a, top);
    MulLe(0, m, Bill(d));
    TopCarry(Bill(a), top, m * Bill(d), Bill(low), carry, PowB(|a|));
    BillSnoc(low, top - carry);
  }

  lemma NoCarryOut(a: nat, m: nat, low: nat, carry: nat, p: nat)
    requires low + m == a + carry * p && low < p && m <= a
    ensures low == a - m
  {
    if carry > 0 { MulLe(1, carry, p); }
  }

  lemma TopCarry(low: nat, top: nat, m: nat, low': nat, carry: nat, p: nat)
    requires low' + m == low + carry * p && low' < p && m <= low + p * top
    ensures carry <= top
    ensures low' + p * (top - carry) == low + p * top - m
  {
    if carry > top {
      MulLe(top + 1, carry, p);
    }
  }

  /** One unit of the subtraction: split the product, borrow if needed, subtract. */
  method SubtractUnit(multiplier: nat, du: nat, au: nat, carry: nat) returns (u: nat, carry': nat)
    requires multiplier < BILLION && du < BILLION && au < BILLION && carry <= BILLION
    ensures u < BILLION && carry' <= BILLION && u + multiplier * du + carry == au + BILLION * carry'
  {
    ProductBound(multiplier, du);
    var lo;
    lo, carry' := SplitUnit(multiplier * du + carry);
    u := au;
    if lo > u {
      u := u + BILLION;
      carry' := carry' + 1;
    }
    u := u - lo;
  }

  /** After i units: what was taken off is the product so far, bar the carry owed at unit i. */
  ghost predicate Owed(low: seq<nat>, a: seq<nat>, d: seq<nat>, i: nat, m: nat, carry: nat) {
    && |low| == i <= |a| == |d|
    && AllUnits(low)
    && Bill(low) + m * Bill(d[..i]) == Bill(a[..i]) + carry * PowB(i)
  }

  /** The low n units of the subtraction; the carry is still owed by the unit above. */
  method SubtractLow(acc: array<nat>, lsua: nat, div: array<nat>, n: nat, multiplier: nat) returns (carry: nat)
    requires acc != div && n <= div.Length && lsua + n <= acc.Length
    requires AllUnits(acc[lsua..lsua + n]) && AllUnits(div[..n]) && multiplier < BILLION
    modifies acc
    ensures Owed(acc[lsua..lsua + n], old(acc[lsua..lsua + n]), div[..n], n, multiplier, carry)
    ensures acc[..] == old(acc[..lsua]) + acc[lsua..lsua + n] + old(acc[lsua + n..])
  {
    ghost var was, a, d := acc[..], acc[lsua..lsua + n], div[..n];
    ghost var low: seq<nat> := [];
    carry := 0;
    assert Owed(low, a, d, 0, multiplier, carry);
    assert forall i, c :: Owed(low, a, d, i, multiplier, c) ==> |low| == i;
    hide Owed;
    for i := 0 to n
      invariant carry <= BILLION && |low| == i
      invariant acc[..] == was[..lsua] + low + was[lsua + i..]
      invariant Owed(low, a, d, i, multiplier, carry)
    {
      assert acc[lsua + i] == acc[..][lsua + i] == a[i] && div[i] == d[i];
      var u, c := SubtractUnit(multiplier, div[i], acc[lsua + i], carry);
      acc[lsua + i] := u;
      SubtractStep(low, a, d, i, multiplier, u, carry, c);
      carry, low := c, low + [u];
    }
    assert acc[lsua..lsua + n] == low;
  }

  lemma SubtractStep(low: seq<nat>, a: seq<nat>, d: seq<nat>, i: nat, m: nat, u: nat, c: nat, c': nat)
    requires Owed(low, a, d, i, m, c) && i < |a|
    requires u < BILLION && u + m * d[i] + c == a[i] + BILLION * c'
    ensures Owed(low + [u], a, d, i + 1, m, c')
  {
    hide Bill;
    assert a[..i + 1] == a[..i] + [a[i]] && d[..i + 1] == d[..i] + [d[i]];
    BillSnoc(low, u);
    BillSnoc(a[..i], a[i]);
    BillSnoc(d[..i], d[i]);
    OneUnit(Bill(low), Bill(d[..i]), Bill(a[..i]), PowB(i), m, d[i], a[i], u, c, c');
  }

  lemma OneUnit(low: nat, d: nat, a: nat, p: nat, m: nat, du: nat, au: nat, nu: nat, c: nat, c': nat)
    requires low + m * d == a + c * p
    requires nu + m * du + c == au + BILLION * c'
    ensures low + p * nu + m * (d + p * du) == a + p * au + c' * (BILLION * p)
  {
    calc {
      low + p * nu + m * (d + p * du);
      { assert m * (d + p * du) == m * d + m * (p * du); Swap3(m, p, du); }
      low + m * d + p * nu + p * (m * du);
      a + c * p + p * nu + p * (m * du);
      { assert p * (nu + m * du + c) == p * nu + p * (m * du) + p * c; }
      a + p * (nu + m * du + c);
      a + p * (au + BILLION * c');
      { assert p * (au + BILLION * c') == p * au + p * (BILLION * c'); Swap3(p, BILLION, c'); }
      a + p * au + c' * (BILLION * p);
    }
  }

  lemma Swap3(a: int, b: int, c: int)
    ensures a * (b * c) == b * (a * c) == c * (b * a)
  {
    MulAssoc(a, b, c);
    MulAssoc(b, a, c);
    MulAssoc(c, b, a);
  }

  // ---- comparing and estimating ----

  /** The first differing unit from the top decides. */
  lemma UnitOrder(a: seq<nat>, d: seq<nat>, i: nat)
    requires |a| == |d| && i < |a| && AllUnits(a) && a[i + 1..] == d[i + 1..] && a[i] < d[i]
    ensures Bill(a) < Bill(d)
  {
    hide Bill, PowB;
    BillCut(a, i + 1);
    BillCut(d, i + 1);
    assert a[..i + 1] == a[..i] + [a[i]] && d[..i + 1] == d[..i] + [d[i]];
    BillSnoc(a[..i], a[i]);
    BillSnoc(d[..i], d[i]);
    BillBound(a[..i]);
    MulLe(a[i] + 1, d[i], PowB(i));
    assert PowB(i) * (a[i] + 1) == PowB(i) * a[i] + PowB(i);
  }

  /** Compares the n units of acc ending at msua with the n units of div, from the top. */
  method CompareUnits(acc: array<nat>, msua: nat, div: array<nat>, n: nat) returns (c: int)
    requires 0 < n <= div.Length && n <= msua + 1 <= acc.Length
    requires AllUnits(acc[msua + 1 - n..msua + 1]) && AllUnits(div[..n])
    ensures c < 0 <==> Bill(acc[msua + 1 - n..msua + 1]) < Bill(div[..n])
    ensures c == 0 <==> Bill(acc[msua + 1 - n..msua + 1]) == Bill(div[..n])
  {
    ghost var a, d := acc[msua + 1 - n..msua + 1], div[..n];
    hide Bill;
    var ud, ua := n - 1, msua;
    while ud > 0 && div[ud] == acc[ua]
      invariant 0 <= ud < n && ua == msua + 1 - n + ud
      invariant forall k :: ud < k < n ==> a[k] == d[k]
      decreases ud
    {
      ud, ua := ud - 1, ua - 1;
    }
    assert a[ud] == acc[ua] && d[ud] == div[ud];
    assert a[ud + 1..] == d[ud + 1..];
    if acc[ua] < div[ud] {
      UnitOrder(a, d, ud);
      c := -1;
    } else if div[ud] < acc[ua] {
      UnitOrder(d, a, ud);
      c := 1;
    } else {
      assert a == d;
      c := 0;
    }
  }

  /** The top unit of the divisor with two more bits, rounded up when anything lies below. */
  method EstimatorTop(div: array<nat>, n: nat) returns (divtop: nat)
    requires 0 < n <= div.Length && AllUnits(div[..n]) && div[n - 1] != 0
    ensures 0 < divtop < WORD && 4 * Bill(div[..n]) <= divtop * PowB(n - 1)
  {
    divtop := div[n - 1] * 4;
    var d, t := 0, 0;
    if n > 1 {
      d := div[n - 2];
      if d >= 750000000 { t := 3; d := d - 750000000; }
      else if d >= 500000000 { t := 2; d := d - 500000000; }
      else if d >= 250000000 { t := 1; d := d - 250000000; }
      var sticky := false;
      if d != 0 { sticky := true; }
      else {
        var um: int := n - 3;
        while um >= 0
          invariant -1 <= um <= n - 3
          invariant !sticky && forall k :: um < k < n - 2 ==> div[k] == 0
        {
          if div[um] != 0 { sticky := true; break; }
          um := um - 1;
        }
      }
      TopBits(div[..n], t, d, sticky);
      divtop := divtop + t + if sticky then 1 else 0;
    } else {
      assert div[..1] == [div[0]];
    }
  }

  lemma TopBits(s: seq<nat>, t: nat, d: nat, sticky: bool)
    requires |s| > 1 && AllUnits(s) && s[|s| - 2] == 250000000 * t + d && t <= 3 && d < 250000000
    requires sticky || (d == 0 && forall k :: 0 <= k < |s| - 2 ==> s[k] == 0)
    ensures 4 * Bill(s) <= (s[|s| - 1] * 4 + t + if sticky then 1 else 0) * PowB(|s| - 1)
  {
    var n := |s|;
    TopTwo(s);
    var low, p := Bill(s[..n - 2]), PowB(n - 2);
    PowBNext(n - 2);
    if !sticky {
      BillZeros(s[..n - 2]);
    }
    TopBitsArithmetic(s[n - 1], t, d, low, p, sticky);
  }

  lemma TopBitsArithmetic(a: nat, t: nat, d: nat, low: nat, p: nat, sticky: bool)
    requires low < p && d < 250000000 && (sticky || (d == 0 && low == 0))
    ensures 4 * (low + p * (250000000 * t + d + BILLION * a)) <= (a * 4 + t + if sticky then 1 else 0) * (BILLION * p)
  {
    var x := a * 4 + t;
    assert p * (250000000 * t + d + BILLION * a) == 250000000 * (p * x) + p * d by {
      assert 250000000 * t + d + BILLION * a == 250000000 * x + d;
      assert p * (250000000 * x + d) == p * (250000000 * x) + p * d;
      Swap3(p, 250000000, x);
    }
    assert (x + 1) * (BILLION * p) == BILLION * (p * x) + BILLION * p by {
      Swap3(x, BILLION, p);
      assert (x + 1) * (BILLION * p) == x * (BILLION * p) + BILLION * p;
    }
    assert x * (BILLION * p) == BILLION * (p * x) by { Swap3(x, BILLION, p); }
    MulLe(d, 249999999, p);
  }

  /** The two top units, and the rest. */
  lemma TopTwo(s: seq<nat>)
    requires |s| > 1 && AllUnits(s)
    ensures var n := |s|;
      Bill(s) == Bill(s[..n - 2]) + PowB(n - 2) * (s[n - 2] + BILLION * s[n - 1]) && Bill(s[..n - 2]) < PowB(n - 2)
  {
    var n := |s|;
    BillCut(s, n - 2);
    BillBound(s[..n - 2]);
    assert s[n - 2..] == [s[n - 2]] + [s[n - 1]];
    BillCons(s[n - 2], [s[n - 1]]);
    assert Bill([s[n - 1]]) == s[n - 1];
  }

  /** The three top units, and the rest. */
  lemma TopThree(s: seq<nat>)
    requires |s| > 2 && AllUnits(s)
    ensures var n := |s|;
      Bill(s) >= PowB(n - 3) * (s[n - 3] + BILLION * s[n - 2] + BILLION * BILLION * s[n - 1])
  {
    var n := |s|;
    BillCut(s, n - 3);
    assert s[n - 3..] == [s[n - 3]] + ([s[n - 2]] + [s[n - 1]]);
    BillCons(s[n - 3], [s[n - 2]] + [s[n - 1]]);
    BillCons(s[n - 2], [s[n - 1]]);
    assert Bill([s[n - 1]]) == s[n - 1];
  }

  /** An estimate num/den is low enough when num is at most, and den at least, the scaled operands. */
  lemma LowEstimate(m: nat, num: nat, den: nat, P: nat, K: nat, D: nat, A: nat)
    requires K > 0 && m * den <= num && D * K <= den * P && num * P <= A * K
    ensures m * D <= A
  {
    MulLe(D * K, den * P, m);
    MulLe(m * den, num, P);
    MulAssoc(m, D, K);
    MulAssoc(m, den, P);
    CancelLe(m * D, A, K);
  }

  const DIVLO := 1000000
  const DIVHI := 1000

  /** An unsigned integer division. */
  method Quotient(n: nat, d: nat) returns (q: nat)
    requires d > 0
    ensures q * d <= n < (q + 1) * d
  {
    q := n / d;
    DivModFact(n, d);
    assert (q + 1) * d == q * d + d;
  }

  /** The estimate when acc and div have the same number of units. */
  method EstimateEqual(acc: array<nat>, msua: nat, div: array<nat>, n: nat) returns (multiplier: nat)
    requires 0 < n <= div.Length && n <= msua + 1 <= acc.Length
    requires AllUnits(acc[msua + 1 - n..msua + 1]) && AllUnits(div[..n]) && div[n - 1] != 0
    ensures multiplier * Bill(div[..n]) <= Bill(acc[msua + 1 - n..msua + 1])
  {
    hide PowB;
    ghost var a, d := acc[msua + 1 - n..msua + 1], div[..n];
    assert a[n - 1] == acc[msua] && d[n - 1] == div[n - 1];
    if n > 1 {
      assert a[n - 2] == acc[msua - 1] && d[n - 2] == div[n - 2];
      var mul := acc[msua] * BILLION + acc[msua - 1];
      var dv := div[n - 1] * BILLION + div[n - 2];
      if n > 2 { dv := dv + 1; }
      multiplier := Quotient(mul, dv);
      EqualLow(a, d, multiplier, mul, dv);
    } else {
      multiplier := Quotient(acc[msua], div[n - 1]);
      assert a == [acc[msua]] && d == [div[0]];
    }
  }

  lemma NoLowUnits(s: seq<nat>)
    ensures Bill(s[..0]) == 0
  {
  }

  lemma EqualLow(a: seq<nat>, d: seq<nat>, m: nat, mul: nat, dv: nat)
    requires |a| == |d| > 1 && AllUnits(a) && AllUnits(d)
    requires mul == a[|a| - 1] * BILLION + a[|a| - 2]
    requires dv == d[|a| - 1] * BILLION + d[|a| - 2] + (if |a| > 2 then 1 else 0)
    requires m * dv <= mul
    ensures m * Bill(d) <= Bill(a)
  {
    hide Bill, PowB, AllUnits;
    var n := |a|;
    TopTwo(a);
    TopTwo(d);
    NoLowUnits(d);
    var p := PowB(n - 2);
    EqualScale(mul, dv, d[n - 2] + BILLION * d[n - 1], p, Bill(a[..n - 2]), Bill(d[..n - 2]));
    LowEstimate(m, mul, dv, p, 1, Bill(d), Bill(a));
  }

  lemma EqualScale(mul: nat, dv: nat, top: nat, p: nat, lowA: nat, lowD: nat)
    requires lowD < p && (dv == top + 1 || (dv == top && lowD == 0))
    ensures lowD + p * top <= dv * p && mul * p <= lowA + p * mul
  {
    assert (top + 1) * p == top * p + p;
  }

  /** The estimate when acc is one unit longer than div; the middle product wraps at 32 bits. */
  method EstimateLonger(acc: array<nat>, msua: nat, div: array<nat>, n: nat, divtop: nat) returns (multiplier: nat)
    requires 0 < n <= div.Length && n <= msua < acc.Length
    requires AllUnits(acc[msua - n..msua + 1]) && AllUnits(div[..n]) && div[n - 1] != 0
    requires divtop > 0 && 4 * Bill(div[..n]) <= divtop * PowB(n - 1)
    ensures multiplier * Bill(div[..n]) <= Bill(acc[msua - n..msua + 1])
  {
    hide PowB, U32;
    ghost var a, d := acc[msua - n..msua + 1], div[..n];
    assert a[n] == acc[msua] && a[n - 1] == acc[msua - 1] && d[n - 1] == div[n - 1];
    var mul;
    if n > 1 && acc[msua] < DIVLO && div[n - 1] < DIVLO {
      assert a[n - 2] == acc[msua - 2] && d[n - 2] == div[n - 2];
      mul := acc[msua] * DIVHI * BILLION + U32(acc[msua - 1] * DIVHI) + acc[msua - 2] / DIVLO;
      var dv := div[n - 1] * DIVHI + div[n - 2] / DIVLO + 1;
      multiplier := Quotient(mul, dv);
      SmallTopsLow(a, d, multiplier, mul, dv);
    } else if n == 1 {
      mul := acc[msua] * BILLION + acc[msua - 1];
      multiplier := Quotient(mul, div[n - 1]);
      assert a == [acc[msua - 1]] + [acc[msua]] && d == [div[0]];
      BillCons(acc[msua - 1], [acc[msua]]);
      assert Bill([acc[msua]]) == acc[msua];
    } else {
      mul := acc[msua] * U32(BILLION * 4) + U32(acc[msua - 1] * 4);
      multiplier := Quotient(mul, divtop);
      LongTopsLow(a, d, multiplier, mul, divtop);
    }
  }

  lemma SmallTopsLow(a: seq<nat>, d: seq<nat>, m: nat, mul: nat, dv: nat)
    requires |a| == |d| + 1 > 2 && AllUnits(a) && AllUnits(d)
    requires var n := |d|;
      && mul <= a[n] * DIVHI * BILLION + a[n - 1] * DIVHI + a[n - 2] / DIVLO
      && dv == d[n - 1] * DIVHI + d[n - 2] / DIVLO + 1
    requires m * dv <= mul
    ensures m * Bill(d) <= Bill(a)
  {
    var n := |d|;
    TopThree(a);
    TopTwo(d);
    var p := PowB(n - 2);
    var num := a[n - 2] + BILLION * a[n - 1] + BILLION * BILLION * a[n];
    var top := d[n - 2] + BILLION * d[n - 1];
    assert mul * DIVLO <= num;
    assert top + 1 <= dv * DIVLO;
    SmallTopsScale(mul, num, dv, top, p, Bill(d), Bill(a));
    LowEstimate(m, mul, dv, DIVLO * p, 1, Bill(d), Bill(a));
  }

  lemma SmallTopsScale(mul: nat, num: nat, dv: nat, top: nat, p: nat, D: nat, A: nat)
    requires mul * DIVLO <= num && top + 1 <= dv * DIVLO
    requires D < p + p * top && p * num <= A
    ensures D <= dv * (DIVLO * p) && mul * (DIVLO * p) <= A
  {
    MulLe(mul * DIVLO, num, p);
    MulAssoc(mul, DIVLO, p);
    MulLe(top + 1, dv * DIVLO, p);
    MulAssoc(dv, DIVLO, p);
    assert p * (top + 1) == p * top + p;
  }

  lemma LongTopsLow(a: seq<nat>, d: seq<nat>, m: nat, mul: nat, divtop: nat)
    requires |a| == |d| + 1 > 1 && AllUnits(a)
    requires mul == a[|d|] * (BILLION * 4) + a[|d| - 1] * 4
    requires m * divtop <= mul && 4 * Bill(d) <= divtop * PowB(|d| - 1)
    ensures m * Bill(d) <= Bill(a)
  {
    hide Bill, PowB;
    TopTwo(a);
    var n, p := |d|, PowB(|d| - 1);
    LongTopsScale(mul, a[n - 1] + BILLION * a[n], p, Bill(a[..n - 1]), Bill(a));
    LowEstimate(m, mul, divtop, p, 4, Bill(d), Bill(a));
  }

  lemma LongTopsScale(mul: nat, x: nat, p: nat, low: nat, A: nat)
    requires mul == 4 * x && A == low + p * x
    ensures mul * p <= A * 4
  {
    MulAssoc(4, x, p);
  }
}
