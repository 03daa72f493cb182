/** The outer loop of decDivide: one quotient unit for each input position. */
module DivideLoop {
  import opened Powers
  import opened Billions
  import opened Formats
  import opened QuotientUnits

  /** The formats the arithmetic is compiled for: OpLen units hold one digit to spare, and
      integers have exponent 0, and exponents are far from the codes of special values. */
  predicate Arithmetic(f: Format) {
    && f.Valid() && 9 <= f.pmax <= 1000 && f.pmax % 9 != 0
    && -100000 <= f.emin && f.emax <= 100000 && f.Qtiny() <= 0 <= f.Qmax()
  }

  lemma ArithmeticFormats()
    ensures Arithmetic(DOUBLE) && DOUBLE.OpLen() == 2 && Arithmetic(QUAD) && QUAD.OpLen() == 4
  {
  }

  /** The dividend n aligned at the top of an accumulator of 3*OpLen units. */
  ghost predicate Aligned(f: Format, orig: seq<nat>, n: nat) {
    var l := f.OpLen();
    && |orig| == 3 * l && AllUnits(orig)
    && (forall i :: 0 <= i < 2 * l ==> orig[i] == 0)
    && Bill(orig[2 * l..]) == n > 0
  }

  /** Zeros brought in from below multiply the dividend by powers of a billion. */
  lemma AlignedValue(f: Format, orig: seq<nat>, n: nat, p: nat)
    requires Aligned(f, orig, n) && p <= 2 * f.OpLen()
    ensures Bill(orig[p..]) == PowB(2 * f.OpLen() - p) * n
  {
    var z := 2 * f.OpLen() - p;
    assert orig[p..][z..] == orig[2 * f.OpLen()..];
    BillCut(orig[p..], z);
    BillZeros(orig[p..][..z]);
  }

  /** Positions above the original units see at most the dividend. */
  lemma AlignedAbove(f: Format, orig: seq<nat>, n: nat, p: nat)
    requires Aligned(f, orig, n) && 2 * f.OpLen() <= p <= 3 * f.OpLen()
    ensures Bill(orig[p..]) <= n
  {
    var l := 2 * f.OpLen();
    BillCut(orig[l..], p - l);
    assert orig[l..][p - l..] == orig[p..];
    MulLe(1, PowB(p - l), Bill(orig[p..]));
  }

  /** The digit count kept beside the quotient units quo[lsuq+1..]; p is the lowest position consumed. */
  predicate Counted(quo: seq<nat>, p: nat, lsuq: int, quodigits: nat)
    requires -1 <= lsuq < |quo|
  {
    var l := |quo| - 1;
    if lsuq == l then quodigits == 0
    else quo[l] != 0 && quodigits == NumDigits(quo[l]) + 9 * (l - lsuq - 1) && lsuq + 1 <= p
  }

  /** Everything consumed so far: the units of orig from p up are quotient times divisor
      plus the window, and the units of acc below p are untouched. */
  ghost predicate Progress(orig: seq<nat>, acc: seq<nat>, quo: seq<nat>, d: nat, p: nat, msua: nat, lsuq: int, quodigits: nat)
  {
    && |orig| == |acc| && AllUnits(orig) && p <= msua + 1 <= |acc| && -1 <= lsuq < |quo|
    && acc[..p] == orig[..p]
    && AllUnits(acc[p..msua + 1]) && Bill(acc[p..msua + 1]) < d
    && AllUnits(quo[lsuq + 1..])
    && Splits(Bill(orig[p..]), Bill(quo[lsuq + 1..]), d, Bill(acc[p..msua + 1]))
    && Counted(quo, p, lsuq, quodigits)
  }

  /** The dividend's lowest unit reaches any divisor within OpLen further positions. */
  lemma SmallPrefix(f: Format, orig: seq<nat>, n: nat, p: nat, d: nat)
    requires Aligned(f, orig, n) && p <= 3 * f.OpLen() && Bill(orig[p..]) < d < PowB(f.OpLen())
    ensures p > f.OpLen()
  {
    hide Bill, PowB;
    var l := f.OpLen();
    if p <= l {
      AlignedValue(f, orig, n, p);
      PowBMonotone(l, 2 * l - p);
      MulLe(1, n, PowB(2 * l - p));
    }
  }

  lemma NoDigitsYet(orig: seq<nat>, acc: seq<nat>, quo: seq<nat>, d: nat, p: nat, msua: nat, lsuq: int, quodigits: nat)
    requires Progress(orig, acc, quo, d, p, msua, lsuq, quodigits) && quodigits == 0
    ensures Bill(orig[p..]) < d && lsuq == |quo| - 1
  {
    assert quo[|quo|..] == [];
    assert Bill([]) == 0;
  }

  lemma OpLenFacts(f: Format)
    requires Arithmetic(f)
    ensures f.pmax + 1 <= 9 * f.OpLen() && f.OpLen() >= 2
  {
  }

  /** A digit count within the limit leaves a place in quo. */
  lemma PlaceLeft(quo: seq<nat>, pmax: nat, p: nat, lsuq: int, quodigits: nat)
    requires -1 <= lsuq < |quo| && Counted(quo, p, lsuq, quodigits) && 0 < quodigits <= pmax + 1 <= 9 * (|quo| - 1)
    ensures 0 <= lsuq < p
  {
  }

  /** At the head of the loop there is always a unit left in acc and a place left in quo. */
  lemma RoomLeft(f: Format, orig: seq<nat>, n: nat, acc: seq<nat>, quo: seq<nat>, d: nat, p: nat, msua: nat, lsuq: int, quodigits: nat)
    requires Arithmetic(f) && Aligned(f, orig, n) && |quo| == f.OpLen() + 1
    requires Progress(orig, acc, quo, d, p, msua, lsuq, quodigits) && d < PowB(f.OpLen())
    requires quodigits <= f.pmax + 1
    ensures p >= 1 && lsuq >= 0 && (quodigits == 0 ==> lsuq < p)
  {
    OpLenFacts(f);
    hide Bill, PowB, Splits, Counted, Arithmetic;
    if quodigits == 0 {
      NoDigitsYet(orig, acc, quo, d, p, msua, lsuq, quodigits);
      SmallPrefix(f, orig, n, p, d);
    } else {
      PlaceLeft(quo, f.pmax, p, lsuq, quodigits);
    }
  }

  /** The count of digits of a non-zero unit, by comparison with the powers of ten. */
  method CountDigits(u: nat) returns (digits: nat)
    requires 0 < u < BILLION
    ensures digits == NumDigits(u) <= 9
  {
    digits := 0;
    var pow := 1;
    Pow10Nine();
    while u >= pow
      invariant pow == Pow10(digits) && digits <= 9
      invariant digits == 0 || Pow10(digits - 1) <= u
      decreases 9 - digits
    {
      if digits == 9 { assert false; }
      digits, pow := digits + 1, 10 * pow;
    }
    NumDigitsUnique(u, digits);
  }

  /** The window grows by the next unit of the dividend. */
  lemma NextWindow(orig: seq<nat>, acc: seq<nat>, quo: seq<nat>, d: nat, p: nat, msua: nat, lsuq: int, quodigits: nat)
    requires Progress(orig, acc, quo, d, p, msua, lsuq, quodigits) && p > 0
    ensures AllUnits(acc[p - 1..msua + 1])
    ensures Bill(acc[p - 1..msua + 1]) == orig[p - 1] + BILLION * Bill(acc[p..msua + 1]) < BILLION * d
    ensures Bill(orig[p - 1..]) == orig[p - 1] + BILLION * Bill(orig[p..])
  {
    assert acc[p - 1] == acc[..p][p - 1] == orig[p - 1];
    assert acc[p - 1..msua + 1] == [orig[p - 1]] + acc[p..msua + 1];
    BillCons(orig[p - 1], acc[p..msua + 1]);
    assert orig[p - 1..] == [orig[p - 1]] + orig[p..];
    BillCons(orig[p - 1], orig[p..]);
  }

  /** The invariant of long division: a new unit, a new remainder. */
  lemma Extends(a: nat, q: nat, d: nat, r: nat, o: nat, unit: nat, r': nat)
    requires Splits(a, q, d, r) && Splits(o + BILLION * r, unit, d, r')
    ensures Splits(o + BILLION * a, unit + BILLION * q, d, r')
  {
    assert (unit + BILLION * q) * d == unit * d + BILLION * (q * d);
  }

  /** What recording a unit does to the digit count and the next place in quo. */
  predicate Recorded(unit: nat, lsuq: nat, quodigits: nat, lsuq': int, quodigits': nat) {
    if quodigits > 0 then lsuq' == lsuq - 1 && quodigits' == quodigits + 9
    else if unit != 0 then lsuq' == lsuq - 1 && quodigits' == NumDigits(unit)
    else lsuq' == lsuq && quodigits' == 0
  }

  lemma StepCounted(quo: seq<nat>, unit: nat, lsua: nat, lsuq: nat, quodigits: nat, lsuq': int, quodigits': nat)
    requires lsuq < |quo| && Counted(quo, lsua + 1, lsuq, quodigits)
    requires Recorded(unit, lsuq, quodigits, lsuq', quodigits')
    requires quodigits == 0 ==> lsuq <= lsua
    ensures -1 <= lsuq' < |quo| && Counted(quo[lsuq := unit], lsua, lsuq', quodigits')
  {
  }

  lemma StepQuotient(quo: seq<nat>, unit: nat, lsuq: nat, quodigits: nat, lsuq': int, quodigits': nat, p: nat)
    requires lsuq < |quo| && Counted(quo, p, lsuq, quodigits) && AllUnits(quo[lsuq + 1..]) && unit < BILLION
    requires Recorded(unit, lsuq, quodigits, lsuq', quodigits')
    ensures AllUnits(quo[lsuq := unit][lsuq' + 1..])
    ensures Bill(quo[lsuq := unit][lsuq' + 1..]) == unit + BILLION * Bill(quo[lsuq + 1..])
  {
    var quo' := quo[lsuq := unit];
    if lsuq' < lsuq {
      assert quo'[lsuq' + 1..] == [unit] + quo[lsuq + 1..];
      BillCons(unit, quo[lsuq + 1..]);
    } else {
      assert quo'[lsuq' + 1..] == [] == quo[lsuq + 1..];
      assert Bill([]) == 0;
    }
  }

  /** A step of the loop keeps the invariant of long division. */
  lemma StepProgress(orig: seq<nat>, acc: seq<nat>, acc': seq<nat>, quo: seq<nat>, d: nat, lsua: nat, msua: nat, msua': nat,
                     unit: nat, lsuq: nat, quodigits: nat, lsuq': int, quodigits': nat)
    requires Progress(orig, acc, quo, d, lsua + 1, msua, lsuq, quodigits)
    requires |acc'| == |acc| && acc'[..lsua] == acc[..lsua] && lsua <= msua' <= msua && AllUnits(acc'[lsua..msua' + 1])
    requires unit < BILLION && Splits(Bill(acc[lsua..msua + 1]), unit, d, Bill(acc'[lsua..msua' + 1]))
    requires Bill(acc'[lsua..msua' + 1]) < d
    requires Recorded(unit, lsuq, quodigits, lsuq', quodigits')
    requires quodigits == 0 ==> lsuq <= lsua
    ensures Progress(orig, acc', quo[lsuq := unit], d, lsua, msua', lsuq', quodigits')
  {
    hide Bill, Splits, Recorded, Counted;
    NextWindow(orig, acc, quo, d, lsua + 1, msua, lsuq, quodigits);
    StepCounted(quo, unit, lsua, lsuq, quodigits, lsuq', quodigits');
    StepQuotient(quo, unit, lsuq, quodigits, lsuq', quodigits', lsua + 1);
    Extends(Bill(orig[lsua + 1..]), Bill(quo[lsuq + 1..]), d, Bill(acc[lsua + 1..msua + 1]), orig[lsua], unit,
            Bill(acc'[lsua..msua' + 1]));
    assert acc'[..lsua] == acc[..lsua + 1][..lsua] == orig[..lsua];
  }

  /** A zero dividend unit after a non-zero remainder cannot end the division with a zero unit. */
  lemma LastUnit(r: nat, unit: nat, d: nat)
    requires r > 0 && Splits(BILLION * r, unit, d, 0)
    ensures unit != 0
  {
    assert 0 * d == 0;
  }

  /** One position: a quotient unit, recorded once significant digits have begun. */
  method DivideStep(ghost orig: seq<nat>, acc: array<nat>, quo: array<nat>, div: array<nat>, n: nat, divtop: nat,
                    lsua: nat, msua: nat, lsuq: nat, quodigits: nat)
    returns (msua': nat, lsuq': int, quodigits': nat)
    requires acc != div && acc != quo && quo != div && Divisor(div, n, divtop)
    requires Progress(orig, acc[..], quo[..], Bill(div[..n]), lsua + 1, msua, lsuq, quodigits)
    requires lsuq < quo.Length && (quodigits == 0 ==> lsuq <= lsua)
    modifies acc, quo
    ensures Progress(orig, acc[..], quo[..], Bill(div[..n]), lsua, msua', lsuq', quodigits')
    ensures lsua <= msua' < acc.Length && (acc[msua'] == 0 <==> Bill(acc[..][lsua..msua' + 1]) == 0)
    ensures quo[lsuq] < BILLION && Recorded(quo[lsuq], lsuq, quodigits, lsuq', quodigits')
    ensures quodigits == 0 ==> quodigits' <= 9
    ensures Bill(old(acc[..])[lsua + 1..msua + 1]) > 0 && Bill(acc[..][lsua..msua' + 1]) == 0 && orig[lsua] == 0 ==> quo[lsuq] != 0
  {
    ghost var acc0, quo0, d := acc[..], quo[..], Bill(div[..n]);
    NextWindow(orig, acc0, quo0, d, lsua + 1, msua, lsuq, quodigits);
    assert acc0[lsua..msua + 1] == acc[lsua..msua + 1] && acc0[lsua + 1..msua + 1] == acc[lsua + 1..msua + 1];
    hide Bill, Splits, Counted;
    var unit;
    unit, msua' := QuotientUnit(acc, lsua, msua, div, n, divtop);
    quo[lsuq] := unit;
    if quodigits > 0 {
      quodigits' := quodigits + 9;
      lsuq' := lsuq - 1;
    } else if unit != 0 {
      quodigits' := CountDigits(unit);
      lsuq' := lsuq - 1;
    } else {
      quodigits', lsuq' := 0, lsuq;
    }
    assert quo[..] == quo0[lsuq := unit] && acc[..][lsua..msua' + 1] == acc[lsua..msua' + 1];
    assert acc[..][..lsua] == acc0[..lsua];
    StepProgress(orig, acc0, acc[..], quo0, d, lsua, msua, msua', unit, lsuq, quodigits, lsuq', quodigits');
    if Bill(acc0[lsua + 1..msua + 1]) > 0 && Bill(acc[lsua..msua' + 1]) == 0 && orig[lsua] == 0 {
      LastUnit(Bill(acc0[lsua + 1..msua + 1]), unit, d);
    }
  }

  lemma ScaledDigits(low: nat, u: nat, lo: nat, hi: nat, p: nat)
    requires low < p && lo <= u < hi
    ensures lo * p <= low + p * u < hi * p
  {
    MulLe(lo, u, p);
    MulLe(u + 1, hi, p);
    assert p * (u + 1) == p * u + p;
  }

  lemma PowerOfUnits(i: nat, k: nat)
    ensures Pow10(i + 9 * k) == Pow10(i) * PowB(k)
  {
    PowBIsPow10(k);
    Pow10Add(i, 9 * k);
  }

  /** Units below a leading one add nine digits each. */
  lemma DigitsOfUnits(low: seq<nat>, u: nat)
    requires AllUnits(low) && u != 0
    ensures var t := NumDigits(u) + 9 * |low|;
      Pow10(t - 1) <= Bill(low + [u]) < Pow10(t)
  {
    hide Bill, Pow10, PowB, NumDigits;
    BillSnoc(low, u);
    BillBound(low);
    PowerOfUnits(NumDigits(u) - 1, |low|);
    PowerOfUnits(NumDigits(u), |low|);
    ScaledDigits(Bill(low), u, Pow10(NumDigits(u) - 1), Pow10(NumDigits(u)), PowB(|low|));
  }

  /** The recorded units carry exactly the digits counted. */
  lemma QuotientDigits(quo: seq<nat>, p: nat, lsuq: int, quodigits: nat)
    requires -1 <= lsuq < |quo| - 1 && Counted(quo, p, lsuq, quodigits) && AllUnits(quo[lsuq + 1..])
    ensures quodigits > 0 && Pow10(quodigits - 1) <= Bill(quo[lsuq + 1..]) < Pow10(quodigits)
  {
    var l := |quo| - 1;
    assert quo[lsuq + 1..] == quo[lsuq + 1..l] + [quo[l]];
    DigitsOfUnits(quo[lsuq + 1..l], quo[l]);
  }

  /** More digits than the dividend has: the original units are all behind. */
  lemma EnoughDigits(f: Format, orig: seq<nat>, n: nat, acc: seq<nat>, quo: seq<nat>, d: nat, p: nat, msua: nat, lsuq: int, quodigits: nat)
    requires Arithmetic(f) && Aligned(f, orig, n) && n < Pow10(f.pmax)
    requires Progress(orig, acc, quo, d, p, msua, lsuq, quodigits) && quodigits > f.pmax + 1
    ensures p < 2 * f.OpLen() && Bill(quo[lsuq + 1..]) >= Pow10(f.pmax + 1)
  {
    hide Bill;
    QuotientDigits(quo, p, lsuq, quodigits);
    Pow10Monotone(f.pmax + 1, quodigits - 1);
    Pow10Monotone(f.pmax, f.pmax + 1);
    if p >= 2 * f.OpLen() {
      AlignedAbove(f, orig, n, p);
      MulLe(1, d, Bill(quo[lsuq + 1..]));
    }
  }

  /** The quotient so far of n scaled up by the positions used, and what is left. */
  ghost predicate Leaves(f: Format, lsua: nat, n: nat, q: nat, d: nat, r: nat, inexact: bool) {
    lsua <= 2 * f.OpLen() && r < d && Splits(PowB(2 * f.OpLen() - lsua) * n, q, d, r) && (inexact <==> r > 0)
  }

  /** What the long division hands over: quotient units quo[lsuq..], where it stopped, and
      whether anything is left. */
  ghost predicate Quotients(f: Format, n: nat, d: nat, quo: seq<nat>, lsua: nat, lsuq: nat, quodigits: nat, inexact: bool) {
    && |quo| == f.OpLen() + 1 && lsuq <= f.OpLen() && AllUnits(quo[lsuq..])
    && lsua <= 2 * f.OpLen() && quodigits > 0
    && Pow10(quodigits - 1) <= Bill(quo[lsuq..]) < Pow10(quodigits)
    && (exists r: nat :: Leaves(f, lsua, n, Bill(quo[lsuq..]), d, r, inexact))
    && (inexact ==> quodigits > f.pmax + 1 && lsuq < f.OpLen())
    && (!inexact && lsua < 2 * f.OpLen() ==> quo[lsuq] != 0)
    && quo[f.OpLen()] != 0
  }

  lemma Finished(f: Format, orig: seq<nat>, n: nat, acc: seq<nat>, quo: seq<nat>, d: nat, lsua: nat, msua: nat, lsuq: int, quodigits: nat)
    requires Arithmetic(f) && Aligned(f, orig, n) && n < Pow10(f.pmax) && |quo| == f.OpLen() + 1
    requires Progress(orig, acc, quo, d, lsua, msua, lsuq, quodigits) && lsua <= 2 * f.OpLen()
    requires var r := Bill(acc[lsua..msua + 1]);
      && (r > 0 ==> quodigits > f.pmax + 1 && lsuq + 1 < f.OpLen())
      && (r == 0 && lsua < 2 * f.OpLen() ==> quodigits > 0 && quo[lsuq + 1] != 0)
    ensures lsuq + 1 <= f.OpLen()
    ensures Quotients(f, n, d, quo, lsua, lsuq + 1, quodigits, Bill(acc[lsua..msua + 1]) > 0)
  {
    AlignedValue(f, orig, n, lsua);
    var r := Bill(acc[lsua..msua + 1]);
    assert Bill([]) == 0 && 0 * d == 0 && PowB(0) == 1 && quo[|quo|..] == [];
    if quodigits == 0 {
      NoDigitsYet(orig, acc, quo, d, lsua, msua, lsuq, quodigits);
      assert false;
    }
    QuotientDigits(quo, lsua, lsuq, quodigits);
    assert Leaves(f, lsua, n, Bill(quo[lsuq + 1..]), d, r, r > 0);
  }

  /** The state at the head of the loop. */
  ghost predicate Head(f: Format, orig: seq<nat>, acc: seq<nat>, quo: seq<nat>, d: nat, p: nat, msua: nat, lsuq: int, quodigits: nat) {
    && Progress(orig, acc, quo, d, p, msua, lsuq, quodigits)
    && quodigits <= f.pmax + 1
    && (p <= 2 * f.OpLen() ==> Bill(acc[p..msua + 1]) > 0)
  }

  /** The two ways out of the loop: enough digits, or nothing left. */
  lemma Stops(f: Format, orig: seq<nat>, num: nat, acc: seq<nat>, quo: seq<nat>, d: nat, lsua: nat, msua: nat,
              lsuq: nat, quodigits: nat, lsuq': int, quodigits': nat, before: nat)
    requires Arithmetic(f) && num < Pow10(f.pmax) && Aligned(f, orig, num) && |quo| == f.OpLen() + 1 && lsuq < |quo|
    requires Progress(orig, acc, quo, d, lsua, msua, lsuq', quodigits')
    requires Recorded(quo[lsuq], lsuq, quodigits, lsuq', quodigits')
    requires lsua < 2 * f.OpLen() ==> before > 0
    requires lsua < |orig| && before > 0 && Bill(acc[lsua..msua + 1]) == 0 && orig[lsua] == 0 ==> quo[lsuq] != 0
    requires (quodigits > 0 && quodigits' > f.pmax + 1 && lsuq < f.OpLen())
          || (Bill(acc[lsua..msua + 1]) == 0 && lsua <= 2 * f.OpLen())
    ensures -1 <= lsuq' && lsuq' + 1 <= f.OpLen()
    ensures Quotients(f, num, d, quo, lsua, lsuq' + 1, quodigits', Bill(acc[lsua..msua + 1]) > 0)
  {
    hide Bill, PowB, Splits, Quotients, Counted;
    if quodigits > 0 && quodigits' > f.pmax + 1 {
      EnoughDigits(f, orig, num, acc, quo, d, lsua, msua, lsuq', quodigits');
    }
    Finished(f, orig, num, acc, quo, d, lsua, msua, lsuq', quodigits');
  }

  /** What is left of the dividend before the next unit is brought down. */
  function Before(acc: seq<nat>, p: nat, msua: nat): nat {
    if p <= msua + 1 <= |acc| then Bill(acc[p..msua + 1]) else 0
  }

  lemma DivisorFits(div: array<nat>, n: nat, divtop: nat)
    requires Divisor(div, n, divtop)
    ensures n <= div.Length
  {
  }

  lemma IterationStarts(f: Format, orig: seq<nat>, num: nat, acc: seq<nat>, quo: seq<nat>, d: nat, p: nat,
                        msua: nat, lsuq: int, quodigits: nat)
    requires Arithmetic(f) && num < Pow10(f.pmax) && Aligned(f, orig, num) && |quo| == f.OpLen() + 1 && d < PowB(f.OpLen())
    requires Head(f, orig, acc, quo, d, p, msua, lsuq, quodigits)
    ensures 0 < p <= |orig| == |acc| && 0 <= lsuq < |quo| && (quodigits == 0 ==> lsuq <= p - 1)
    ensures p <= msua + 1 <= |acc| && Before(acc, p, msua) == Bill(acc[p..msua + 1])
    ensures Progress(orig, acc, quo, d, p, msua, lsuq, quodigits) && (quodigits > 0 ==> lsuq < f.OpLen())
    ensures p - 1 < 2 * f.OpLen() ==> Before(acc, p, msua) > 0 && orig[p - 1] == 0
    ensures f.pmax >= 9
  {
    RoomLeft(f, orig, num, acc, quo, d, p, msua, lsuq, quodigits);
  }

  lemma GoesOn(f: Format, orig: seq<nat>, acc: seq<nat>, quo: seq<nat>, d: nat, p: nat, msua: nat, lsuq: int, before: nat, quodigits: nat)
    requires Progress(orig, acc, quo, d, p, msua, lsuq, quodigits) && f.pmax >= 9
    requires before == 0 ==> quodigits <= 9
    requires !(before > 0 && quodigits > f.pmax + 1) && (Bill(acc[p..msua + 1]) > 0 || p > 2 * f.OpLen())
    ensures Head(f, orig, acc, quo, d, p, msua, lsuq, quodigits)
  {
  }

  /** One trip round the outer loop. */
  method Iterate(f: Format, ghost orig: seq<nat>, ghost num: nat, acc: array<nat>, quo: array<nat>, div: array<nat>,
                 n: nat, divtop: nat, p: nat, msua: nat, lsuq: int, quodigits: nat)
    returns (msua': nat, lsuq': int, quodigits': nat, stop: bool, inexact: bool)
    requires Arithmetic(f) && num < Pow10(f.pmax) && Aligned(f, orig, num) && quo.Length == f.OpLen() + 1
    requires acc != div && acc != quo && quo != div && Divisor(div, n, divtop) && Bill(div[..n]) < PowB(f.OpLen())
    requires Head(f, orig, acc[..], quo[..], Bill(div[..n]), p, msua, lsuq, quodigits)
    modifies acc, quo
    ensures p > 0
    ensures !stop ==> Head(f, orig, acc[..], quo[..], Bill(div[..n]), p - 1, msua', lsuq', quodigits')
    ensures stop ==> -1 <= lsuq' && Quotients(f, num, Bill(div[..n]), quo[..], p - 1, lsuq' + 1, quodigits', inexact)
  {
    hide *;
    DivisorFits(div, n, divtop);
    ghost var d, before := Bill(div[..n]), Before(acc[..], p, msua);
    IterationStarts(f, orig, num, acc[..], quo[..], d, p, msua, lsuq, quodigits);
    msua', lsuq', quodigits' := DivideStep(orig, acc, quo, div, n, divtop, p - 1, msua, lsuq, quodigits);
    inexact := acc[msua'] != 0;
    stop := (quodigits > 0 && quodigits' > f.pmax + 1) || (!inexact && p - 1 <= 2 * f.OpLen());
    if stop {
      Stops(f, orig, num, acc[..], quo[..], d, p - 1, msua', lsuq, quodigits, lsuq', quodigits', before);
    } else {
      GoesOn(f, orig, acc[..], quo[..], d, p - 1, msua', lsuq', quodigits, quodigits');
    }
  }

  lemma LoopFacts(f: Format, orig: seq<nat>, num: nat, div: array<nat>, n: nat, divtop: nat)
    requires Aligned(f, orig, num) && Divisor(div, n, divtop) && n <= f.OpLen()
    ensures |orig| == 3 * f.OpLen() && 0 < n <= div.Length && AllUnits(div[..n]) && div[..n][n - 1] != 0
    ensures Bill(div[..n]) < PowB(f.OpLen())
  {
    BillBound(div[..n]);
    PowBMonotone(n, f.OpLen());
  }

  /** Divides acc (the dividend, high-aligned) by div, filling quo from the top unit down
      until the result is exact or has more than pmax+1 digits. */
  method LongDivide(f: Format, ghost num: nat, acc: array<nat>, quo: array<nat>, div: array<nat>, n: nat, divtop: nat)
    returns (lsua: nat, lsuq: nat, quodigits: nat, inexact: bool)
    requires Arithmetic(f) && num < Pow10(f.pmax) && Aligned(f, acc[..], num)
    requires acc != div && acc != quo && quo != div && quo.Length == f.OpLen() + 1
    requires Divisor(div, n, divtop) && n <= f.OpLen()
    modifies acc, quo
    ensures Quotients(f, num, Bill(div[..n]), quo[..], lsua, lsuq, quodigits, inexact)
  {
    hide *;
    LoopFacts(f, acc[..], num, div, n, divtop);
    ghost var orig, d := acc[..], Bill(div[..n]);
    var msua: nat, p: nat, msuq: int := acc.Length - 1, acc.Length - n + 1, f.OpLen();
    quodigits := 0;
    InitialHead(f, num, orig, quo[..], div[..n], p);
    var stop := false;
    inexact := false;
    while !stop
      invariant Divisor(div, n, divtop) && d == Bill(div[..n])
      invariant !stop ==> Head(f, orig, acc[..], quo[..], d, p, msua, msuq, quodigits)
      invariant stop ==> -1 <= msuq && Quotients(f, num, d, quo[..], p, msuq + 1, quodigits, inexact)
      decreases !stop, p
    {
      msua, msuq, quodigits, stop, inexact :=
        Iterate(f, orig, num, acc, quo, div, n, divtop, p, msua, msuq, quodigits);
      p := p - 1;
    }
    lsua, lsuq := p, msuq + 1;
  }

  lemma InitialHead(f: Format, n: nat, orig: seq<nat>, quo: seq<nat>, div: seq<nat>, p: nat)
    requires Aligned(f, orig, n) && AllUnits(div) && 0 < |div| <= f.OpLen() && div[|div| - 1] != 0
    requires quo != [] && p == |orig| - |div| + 1
    ensures Head(f, orig, orig, quo, Bill(div), p, |orig| - 1, |quo| - 1, 0)
  {
    InitialProgress(orig, quo, div, p);
  }

  lemma InitialProgress(orig: seq<nat>, quo: seq<nat>, div: seq<nat>, p: nat)
    requires AllUnits(orig) && AllUnits(div) && 0 < |div| <= |orig| && div[|div| - 1] != 0 && quo != []
    requires p == |orig| - |div| + 1
    ensures Progress(orig, orig, quo, Bill(div), p, |orig| - 1, |quo| - 1, 0)
  {
    BillBound(orig[p..]);
    BillTop(div);
    assert orig[p..|orig| - 1 + 1] == orig[p..];
    assert quo[|quo|..] == [];
    assert Bill([]) == 0 && 0 * Bill(div) == 0;
  }
}
