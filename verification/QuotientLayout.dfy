/** From quotient units to a decimal coefficient: sticky bit, BCD layout, exponent. */
module QuotientLayout {
  import opened Powers
  import opened Digits
  import opened Billions
  import opened Formats
  import opened Rounding
  import opened Sticky
  import opened Integers
  import opened StandIns
  import opened DivideLoop

  method PutTriad(bcd: array<nat>, at: nat, n: nat)
    requires at + 3 <= bcd.Length && n < 1000
    modifies bcd
    ensures bcd[at..at + 3] == Triad(n)
    ensures forall i :: 0 <= i < bcd.Length && !(at <= i < at + 3) ==> bcd[i] == old(bcd[i])
  {
    bcd[at], bcd[at + 1], bcd[at + 2] := n / 100, n / 10 % 10, n % 10;
  }

  /** Lays out a base-billion unit as nine digits, by three splits into triads. */
  method PutUnit(bcd: array<nat>, at: nat, u: nat)
    requires at + 9 <= bcd.Length && u < BILLION
    modifies bcd
    ensures AllDigits(bcd[at..at + 9]) && Dec(bcd[at..at + 9]) == u
    ensures forall i :: 0 <= i < bcd.Length && !(at <= i < at + 9) ==> bcd[i] == old(bcd[i])
  {
    var top, rem := u / 1000000, u % 1000000;
    var mid, low := rem / 1000, rem % 1000;
    hide *;
    PutTriad(bcd, at, top);
    ghost var one := bcd[..];
    PutTriad(bcd, at + 3, mid);
    ghost var two := bcd[..];
    PutTriad(bcd, at + 6, low);
    SamePart(one, two, at, at + 3);
    SamePart(two, bcd[..], at, at + 6);
    Slices(two, at, at + 3, at + 6);
    Slices(bcd[..], at, at + 6, at + 9);
    ThreeTriads(top, mid, low);
  }

  /** The three digits of a number below a thousand (BIN2BCD8). */
  function Triad(n: nat): seq<nat> {
    [n / 100, n / 10 % 10, n % 10]
  }

  lemma TriadValue(n: nat)
    requires n < 1000
    ensures AllDigits(Triad(n)) && Dec(Triad(n)) == n && |Triad(n)| == 3 && Pow10(3) == 1000
  {
    hide *;
    var a, b, c := n / 100, n / 10 % 10, n % 10;
    TriadDigits(n, a, b, c);
    DecOne(a);
    DecSnoc([a], b);
    DecSnoc([a] + [b], c);
    Thousand();
  }

  lemma TriadDigits(n: nat, a: nat, b: nat, c: nat)
    requires n < 1000 && a == n / 100 && b == n / 10 % 10 && c == n % 10
    ensures a <= 9 && b <= 9 && c <= 9 && n == 100 * a + 10 * b + c
    ensures Triad(n) == [a] + [b] + [c] && AllDigits([a] + [b] + [c])
  {
  }

  lemma Thousand()
    ensures Pow10(3) == 1000
  {
  }

  lemma ThreeTriads(a: nat, b: nat, c: nat)
    requires a < 1000 && b < 1000 && c < 1000
    ensures AllDigits(Triad(a) + Triad(b) + Triad(c))
    ensures Dec(Triad(a) + Triad(b) + Triad(c)) == 1000000 * a + 1000 * b + c
  {
    hide *;
    TriadValue(a);
    TriadValue(b);
    TriadValue(c);
    DigitsJoin(Triad(a), Triad(b));
    DigitsJoin(Triad(a) + Triad(b), Triad(c));
    DecAppend(Triad(a), Triad(b));
    DecAppend(Triad(a) + Triad(b), Triad(c));
  }

  lemma NothingLaid(units: seq<nat>, hi: nat, bcd: seq<nat>, at: nat)
    requires hi <= |units| && at <= |bcd|
    ensures AllDigits(bcd[at..at]) && Dec(bcd[at..at]) == Bill(units[hi..hi])
  {
  }

  lemma UnitWithin(units: seq<nat>, lo: nat, hi: nat, i: nat)
    requires lo <= i < hi <= |units| && AllUnits(units[lo..hi])
    ensures units[i] < BILLION && units[i..hi] == [units[i]] + units[i + 1..hi]
  {
    assert units[i] == units[lo..hi][i - lo];
  }

  lemma LaidUnit(s: seq<nat>, nine: seq<nat>, u: nat, units: seq<nat>)
    requires Dec(s) == Bill(units) && |nine| == 9 && Dec(nine) == u
    ensures Dec(s + nine) == Bill([u] + units)
  {
    DecAppend(s, nine);
    Pow10Nine();
    BillCons(u, units);
  }

  /** Lays out units[lo..hi] from the top down, nine digits each, from bcd[at]. */
  method PutUnits(units: array<nat>, lo: nat, hi: nat, bcd: array<nat>, at: nat)
    requires units != bcd && lo <= hi <= units.Length && AllUnits(units[lo..hi]) && at + 9 * (hi - lo) <= bcd.Length
    modifies bcd
    ensures var end := at + 9 * (hi - lo);
      && AllDigits(bcd[at..end]) && Dec(bcd[at..end]) == Bill(units[lo..hi])
      && forall i :: 0 <= i < bcd.Length && !(at <= i < end) ==> bcd[i] == old(bcd[i])
  {
    hide *;
    var uq, ub := hi, at;
    NothingLaid(units[..], hi, bcd[..], at);
    while uq > lo
      invariant lo <= uq <= hi && ub == at + 9 * (hi - uq)
      invariant AllDigits(bcd[at..ub]) && Dec(bcd[at..ub]) == Bill(units[uq..hi])
      invariant forall i :: 0 <= i < bcd.Length && !(at <= i < ub) ==> bcd[i] == old(bcd[i])
    {
      ghost var was := bcd[..];
      uq := uq - 1;
      UnitWithin(units[..], lo, hi, uq);
      PutUnit(bcd, ub, units[uq]);
      SamePart(was, bcd[..], at, ub);
      Slices(bcd[..], at, ub, ub + 9);
      DigitsJoin(bcd[at..ub], bcd[ub..ub + 9]);
      LaidUnit(bcd[at..ub], bcd[ub..ub + 9], units[uq], units[uq + 1..hi]);
      ub := ub + 9;
    }
  }

  /** Sets the low bit of the last quotient unit. */
  lemma SetLowBit(s: seq<nat>)
    requires s != [] && AllUnits(s)
    ensures var t := s[0 := if s[0] % 2 == 0 then s[0] + 1 else s[0]];
      AllUnits(t) && Bill(t) % 2 == 1 && (Bill(t) == Bill(s) || Bill(t) == Bill(s) + 1)
  {
    var t := s[0 := if s[0] % 2 == 0 then s[0] + 1 else s[0]];
    assert s == [s[0]] + s[1..] && t == [t[0]] + s[1..];
    BillCons(s[0], s[1..]);
    BillCons(t[0], s[1..]);
    assert Bill(t) == t[0] + 2 * (500000000 * Bill(s[1..]));
  }

  /** The coefficient c at exponent e', standing for n/d at exponent e. */
  ghost predicate Stands(f: Format, n: nat, d: nat, e: int, c: nat, e': int, inexact: bool) {
    && e' <= e
    && if inexact then
         exists q: nat :: Truncated(f, n, d, e, c, e', q)
       else c * d == n * Pow10(e - e') && (e' < e ==> c % 10 != 0)
  }

  /** q is n/d truncated at exponent e', and c is q with its low bit set. */
  ghost predicate Truncated(f: Format, n: nat, d: nat, e: int, c: nat, e': int, q: nat) {
    e' <= e && Between(n * Pow10(e - e'), d, q) && c % 2 == 1 && (c == q || c == q + 1) && q >= Pow10(f.pmax + 1)
  }

  predicate Between(n: nat, d: nat, q: nat) {
    q * d < n < (q + 1) * d
  }

  /** Rounding the coefficient is rounding the quotient. */
  lemma QuotientRounds(f: Format, m: Mode, neg: bool, n: nat, d: nat, e: int, c: nat, e': int, inexact: bool,
                       r: DecFloat, s0: set<Flag>, s1: set<Flag>)
    requires f.Valid() && d > 0 && Stands(f, n, d, e, c, e', inexact)
    requires Rounded(f, m, ExactOf(f, neg, c, 1, e'), r, s0, s1)
    ensures Rounded(f, m, ExactOf(f, neg, n, d, e), r, s0, s1)
  {
    hide Rounded, ExactOf;
    var i := e - f.Qtiny();
    if inexact {
      var q: nat :| Truncated(f, n, d, e, c, e', q);
      StickyBit(f, m, neg, n * Pow10(e - e'), d, e', i, q, c, r, s0, s1);
    } else {
      LaterIdeal(f, m, neg, c, e', e, r, s0, s1);
      SameFraction(f, m, neg, n * Pow10(e - e'), d, c, e', i, r, s0, s1);
    }
    assert e - (e - e') == e';
    Respell(f, m, neg, n, d, e, e - e', i, r, s0, s1);
    ExactForm(f, neg, n, d, e);
  }

  /** An integer without trailing zeros would take no exponent nearer to a larger ideal. */
  lemma LaterIdeal(f: Format, m: Mode, neg: bool, c: nat, e': int, e: int, r: DecFloat, s0: set<Flag>, s1: set<Flag>)
    requires f.Valid() && e' <= e && (e' < e ==> c % 10 != 0)
    requires Rounded(f, m, ExactOf(f, neg, c, 1, e'), r, s0, s1)
    ensures Rounded(f, m, ExactOf(f, neg, c, 1, e').(ideal := e - f.Qtiny()), r, s0, s1)
  {
    var x := ExactOf(f, neg, c, 1, e');
    var y := x.(ideal := e - f.Qtiny());
    var j: nat :| Quantum(f, x, j) && r == Finish(f, m, x, j).df && s1 == s0 + Finish(f, m, x, j).flags;
    if e' < e && j >= x.ideal {
      NotTenfold(f, neg, c, e', j + 1 + f.Qtiny());
    }
    assert Quantum(f, y, j);
    assert Finish(f, m, y, j) == Finish(f, m, x, j);
  }

  lemma NotTenfold(f: Format, neg: bool, c: nat, e: int, q: int)
    requires f.Valid() && c % 10 != 0 && q > e && q >= f.Qtiny()
    ensures !IntegralAt(ExactOf(f, neg, c, 1, e), q - f.Qtiny())
  {
    assert Pow10(q - e) == 10 * Pow10(q - e - 1);
    hide Pow10, ExactOf;
    RoundCoarser(f, Down, neg, c, 1, e, q);
    assert 1 * Pow10(q - e) == Pow10(q - e);
    if c % Pow10(q - e) == 0 {
      DivModFact(c, Pow10(q - e));
      Tenfold(c, c / Pow10(q - e), Pow10(q - e - 1));
    }
  }

  lemma Tenfold(c: nat, k: nat, p: nat)
    requires c == k * (10 * p)
    ensures c % 10 == 0
  {
    assert c == 10 * (k * p);
  }

  /** c and n/d are the same number. */
  lemma SameFraction(f: Format, m: Mode, neg: bool, n: nat, d: nat, c: nat, e: int, i: int, r: DecFloat, s0: set<Flag>, s1: set<Flag>)
    requires f.Valid() && d > 0 && c * d == n
    requires Rounded(f, m, ExactOf(f, neg, c, 1, e).(ideal := i), r, s0, s1)
    ensures Rounded(f, m, ExactOf(f, neg, n, d, e).(ideal := i), r, s0, s1)
  {
    hide Rounded;
    ExactForm(f, neg, n, d, e);
    ExactForm(f, neg, c, 1, e);
    var T, U := NumScale(f, e), DenScale(f, e);
    CrossSame(c, d, T, U);
    RoundedCross(f, m, ExactOf(f, neg, n, d, e).(ideal := i), ExactOf(f, neg, c, 1, e).(ideal := i), r, s0, s1);
  }

  lemma CrossSame(c: nat, d: nat, T: nat, U: nat)
    ensures c * d * T * (1 * U) == c * T * (d * U)
  {
    Swap(c, d, T);
    MulAssoc(c * T, d, U);
  }

  /** The digits that matter, found by counting them. */
  lemma LeadingByValue(s: seq<nat>, k: nat)
    requires AllDigits(s) && 0 < k <= |s| && Pow10(k - 1) <= Dec(s) < Pow10(k)
    ensures Dec(s[|s| - k..]) == Dec(s) && s[|s| - k] != 0
  {
    DecBelow(s, k);
    var t := s[|s| - k..];
    if t[0] == 0 {
      DecLeading(t, 1);
      DecBound(t[1..]);
    }
  }

  /** The quotient's digit string, before its exponent is settled. */
  ghost predicate LaidOut(buf: seq<nat>, msd: nat, lsd: nat, c: nat) {
    && 1 <= msd <= 9 && msd <= lsd < |buf|
    && AllDigits(buf[msd..lsd + 1]) && Dec(buf[msd..lsd + 1]) == c && buf[msd] != 0
  }

  /** c is the quotient q, with its low bit set when something was left over. */
  predicate LowBitSet(q: nat, c: nat, inexact: bool) {
    if inexact then c % 2 == 1 && (c == q || c == q + 1) else c == q
  }

  /** Applies the sticky bit to the last quotient unit. */
  method ApplySticky(quo: array<nat>, lsuq: nat, inexact: bool)
    requires lsuq < quo.Length && AllUnits(quo[lsuq..])
    modifies quo
    ensures AllUnits(quo[lsuq..]) && LowBitSet(old(Bill(quo[..][lsuq..])), Bill(quo[lsuq..]), inexact)
  {
    ghost var s := quo[lsuq..];
    assert s == quo[..][lsuq..];
    if inexact {
      SetLowBit(s);
      quo[lsuq] := if quo[lsuq] % 2 == 0 then quo[lsuq] + 1 else quo[lsuq];
      assert quo[lsuq..] == s[0 := quo[lsuq]];
    }
  }

  lemma QuotientPart(f: Format, n: nat, d: nat, quo: seq<nat>, lsua: nat, lsuq: nat, quodigits: nat, inexact: bool)
    returns (s: seq<nat>)
    requires Quotients(f, n, d, quo, lsua, lsuq, quodigits, inexact)
    ensures |quo| == f.OpLen() + 1 && lsuq < |quo| && s == quo[lsuq..] && quodigits > 0
    ensures s != [] && AllUnits(s) && s[|s| - 1] != 0 && Pow10(quodigits - 1) <= Bill(s) < Pow10(quodigits)
  {
    s := quo[lsuq..];
  }

  /** Applies the sticky bit and lays the quotient out in BCD. */
  method LayOut(f: Format, ghost n: nat, ghost d: nat, quo: array<nat>, lsua: nat, lsuq: nat, quodigits: nat, inexact: bool)
    returns (bcd: array<nat>, msd: nat, lsd: nat, ghost c: nat)
    requires Arithmetic(f) && Quotients(f, n, d, quo[..], lsua, lsuq, quodigits, inexact)
    modifies quo
    ensures fresh(bcd) && bcd.Length == 9 * (f.OpLen() + 1) + 2 && lsd <= 9 * (f.OpLen() + 1)
    ensures LaidOut(bcd[..], msd, lsd, c) && LowBitSet(old(Bill(quo[..][lsuq..])), c, inexact)
  {
    hide Dec, Bill, Pow10, Quotients, Arithmetic, LowBitSet, LaidOut, AllUnits, AllDigits;
    ghost var s := QuotientPart(f, n, d, quo[..], lsua, lsuq, quodigits, inexact);
    ApplySticky(quo, lsuq, inexact);
    bcd := new nat[9 * (f.OpLen() + 1) + 2];
    c := Bill(quo[lsuq..]);
    assert quo[lsuq..quo.Length] == quo[lsuq..];
    PutUnits(quo, lsuq, quo.Length, bcd, 1);
    lsd := 9 * (quo.Length - lsuq);
    StickyLength(c, Bill(s), quodigits, inexact);
    CountLength(s, quodigits);
    msd := 1 + lsd - quodigits;
    assert bcd[..][1..lsd + 1] == bcd[1..lsd + 1];
    LaidByCount(bcd[..], lsd, quodigits, c);
  }

  lemma LaidByCount(bcd: seq<nat>, lsd: nat, k: nat, c: nat)
    requires lsd < |bcd| && AllDigits(bcd[1..lsd + 1]) && Dec(bcd[1..lsd + 1]) == c
    requires 0 < k <= lsd <= k + 8 && Pow10(k - 1) <= c < Pow10(k)
    ensures LaidOut(bcd, 1 + lsd - k, lsd, c)
  {
    LeadingByValue(bcd[1..lsd + 1], k);
    assert bcd[1..lsd + 1][lsd - k..] == bcd[1 + lsd - k..lsd + 1];
  }

  /** Setting the low bit never adds a digit. */
  lemma StickyLength(c: nat, q: nat, k: nat, inexact: bool)
    requires k > 0 && Pow10(k - 1) <= q < Pow10(k) && LowBitSet(q, c, inexact)
    ensures Pow10(k - 1) <= c < Pow10(k)
  {
    assert Pow10(k) == 2 * (5 * Pow10(k - 1));
  }

  lemma CountLength(s: seq<nat>, k: nat)
    requires s != [] && AllUnits(s) && s[|s| - 1] != 0 && k > 0 && Pow10(k - 1) <= Bill(s) < Pow10(k)
    ensures 9 * |s| - 8 <= k <= 9 * |s|
  {
    BillTop(s);
    BillBound(s);
    PowBIsPow10(|s| - 1);
    PowBIsPow10(|s|);
    Pow10Order(9 * (|s| - 1), k);
    Pow10Order(k - 1, 9 * |s|);
  }

  /** Drops the trailing zeros of an exact quotient. */
  method DropZeros(bcd: array<nat>, msd: nat, lsd: nat) returns (ub: nat)
    requires msd <= lsd < bcd.Length && bcd[msd] != 0
    ensures msd <= ub <= lsd && bcd[ub] != 0
    ensures Dec(bcd[msd..lsd + 1]) == Dec(bcd[msd..ub + 1]) * Pow10(lsd - ub)
  {
    ub := lsd;
    while bcd[ub] == 0
      invariant msd <= ub <= lsd
      invariant forall k :: ub < k <= lsd ==> bcd[k] == 0
      decreases ub
    {
      ub := ub - 1;
    }
    assert bcd[msd..lsd + 1] == bcd[msd..ub + 1] + bcd[ub + 1..lsd + 1];
    DecPad(bcd[msd..ub + 1], bcd[ub + 1..lsd + 1]);
  }

  /** An exact quotient that ran past the dividend drops fewer zeros than it gained. */
  lemma ManyZeros(q: nat, c: nat, z: nat)
    requires z >= 9 && q == c * Pow10(z)
    ensures q % BILLION == 0
  {
    hide Pow10;
    Pow10Split(9, z);
    Pow10Nine();
    Shuffle(c, BILLION, Pow10(z - 9));
    DivModUnique(q, BILLION, c * Pow10(z - 9), 0);
  }

  lemma FewZeros(q: nat, d: nat, n: nat, k: nat, c: nat, z: nat, u: nat, rest: nat)
    requires d > 0 && k > 0 && q == c * Pow10(z) && q * d == n * Pow10(9 * k)
    requires q == u + BILLION * rest && 0 < u < BILLION
    ensures z <= 8 && c * d == n * Pow10(9 * k - z)
  {
    hide Pow10;
    if z >= 9 {
      DivModUnique(q, BILLION, rest, u);
      ManyZeros(q, c, z);
      assert false;
    }
    Pow10Split(z, 9 * k);
    MulAssoc(n, Pow10(9 * k - z), Pow10(z));
    Swap(c, Pow10(z), d);
    CancelLe(c * d, n * Pow10(9 * k - z), Pow10(z));
    CancelLe(n * Pow10(9 * k - z), c * d, Pow10(z));
  }

  lemma Shuffle(a: nat, b: nat, c: nat)
    ensures a * (b * c) == a * c * b
  {
    MulAssoc(a, c, b);
  }
}
