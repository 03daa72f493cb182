/** decDigitsToDPD: the digits of a number, with zeros added on the right, as declets. */
module DpdPack {
  import opened Digits
  import opened DecNumbers
  import opened Dpd
  import opened DpdWords

  /** The most digits of any interchange format (DECMAX754), and the units they take. */
  const MAX_DIGITS: nat := 34
  const MAX_UNITS: nat := 17

  /** Digit i of a string of digits, least significant first, that goes on with zeros. */
  function DigitAt(d: seq<nat>, i: nat): nat {
    if i < |d| then d[i] else 0
  }

  /** Three digits as a number. */
  function Bin(d: seq<nat>): nat {
    DigitAt(d, 0) + 10 * DigitAt(d, 1) + 100 * DigitAt(d, 2)
  }

  function Beyond(d: seq<nat>): seq<nat> {
    if |d| <= 3 then [] else d[3..]
  }

  /** The number whose declets encode the digits, three by three from the right. */
  ghost function Declets(d: seq<nat>): nat
    decreases |d|
  {
    if d == [] then 0 else Encode(Bin(d)) + 1024 * Declets(Beyond(d))
  }

  /** The lowest declet is that of the three lowest digits. */
  lemma DecletsOf(a: nat, b: nat, c: nat, rest: seq<nat>)
    ensures Declets([c, b, a] + rest) == Encode(100 * a + 10 * b + c) + 1024 * Declets(rest)
    ensures Declets([c]) == Encode(c) && Declets([c, b]) == Encode(10 * b + c) && Declets([]) == 0
  {
    hide Encode;
    assert Beyond([c, b, a] + rest) == rest;
  }

  lemma BinBound(d: seq<nat>)
    requires AllDigits(d)
    ensures Bin(d) < 1000
  {
  }

  // ---- shifting ----

  /** n zeros below the digits of d. */
  function Raised(d: seq<nat>, n: nat): (r: seq<nat>)
    ensures |r| == |d| + n
  {
    seq(n, _ => 0) + d
  }

  function Units(digits: nat): nat {
    (digits + 1) / 2
  }

  /** The unit at t once the digits have moved up by 2q+1. */
  function SplitUnit(lsu: seq<nat>, n: nat, q: nat, t: nat): nat
    requires n <= |lsu|
  {
    (if t > q && t - q - 1 < n then lsu[t - q - 1] / 10 else 0) + (if t >= q && t - q < n then lsu[t - q] % 10 * 10 else 0)
  }

  /** A shift, a multiplication and a shift divide by ten. */
  lemma Quot10(u: nat)
    requires u <= 99
    ensures u / 2 * 26215 / 0x2_0000 == u / 10
  {
  }

  /** An odd shift: each unit is split, its upper digit going to the unit above. */
  method ShiftSplit(lsu: array<nat>, digits: nat, shift: nat, uar: array<nat>)
    requires lsu != uar && uar.Length == MAX_UNITS && 0 < digits && digits + shift <= MAX_DIGITS && shift % 2 == 1
    requires Units(digits) <= lsu.Length && forall i :: 0 <= i < Units(digits) ==> lsu[i] <= 99
    modifies uar
    ensures forall t :: 0 <= t < Units(digits + shift) ==> uar[t] == SplitUnit(lsu[..], Units(digits), shift / 2, t)
  {
    ghost var n, q := Units(digits), shift / 2;
    var source: int, target: int, first: int, next: nat := Units(digits) - 1, Units(digits) - 1 + Units(shift), Units(digits + shift) - 1, 0;
    while source >= 0
      invariant -1 <= source < n && target == source + q + 1
      invariant next == if source + 1 < n then lsu[source + 1] % 10 * 10 else 0
      invariant forall t :: target < t <= first ==> uar[t] == SplitUnit(lsu[..], n, q, t)
    {
      Quot10(lsu[source]);
      var quot := lsu[source] / 2 * 26215 / 0x2_0000;
      var rem := lsu[source] - quot * 10;
      next := next + quot;
      if target <= first {
        uar[target] := next;
      }
      next := rem * 10;
      source, target := source - 1, target - 1;
    }
    while target >= 0
      invariant -1 <= target <= q && next == (if target == q then lsu[0] % 10 * 10 else 0)
      invariant forall t :: target < t <= first ==> uar[t] == SplitUnit(lsu[..], n, q, t)
    {
      uar[target] := next;
      next := 0;
      target := target - 1;
    }
  }

  /** An even shift moves whole units. */
  method ShiftWhole(lsu: array<nat>, digits: nat, shift: nat, uar: array<nat>)
    requires lsu != uar && uar.Length == MAX_UNITS && 0 < digits && digits + shift <= MAX_DIGITS && shift % 2 == 0
    requires Units(digits) <= lsu.Length
    modifies uar
    ensures forall t :: 0 <= t < Units(digits + shift) ==> uar[t] == if t < shift / 2 then 0 else lsu[t - shift / 2]
  {
    ghost var q := shift / 2;
    var source: int, target: int := Units(digits) - 1, Units(digits) - 1 + Units(shift);
    while source >= 0
      invariant -1 <= source < Units(digits) && target == source + q
      invariant forall t :: target < t < Units(digits + shift) ==> uar[t] == lsu[t - q]
    {
      uar[target] := lsu[source];
      source, target := source - 1, target - 1;
    }
    while target >= 0
      invariant -1 <= target < q
      invariant forall t :: target < t < Units(digits + shift) ==> uar[t] == if t < q then 0 else lsu[t - q]
    {
      uar[target] := 0;
      target := target - 1;
    }
  }

  /** Either way the digits move up by the shift. */
  lemma SplitDigits(lsu: seq<nat>, uar: seq<nat>, digits: nat, shift: nat)
    requires 0 < digits && shift % 2 == 1 && digits <= 2 * |lsu| && digits + shift <= 2 * |uar|
    requires forall i :: 0 <= i < Units(digits) ==> lsu[i] <= 99
    requires forall t :: 0 <= t < Units(digits + shift) ==> uar[t] == SplitUnit(lsu, Units(digits), shift / 2, t)
    ensures DigitsOf(uar, digits + shift) == Raised(DigitsOf(lsu, digits), shift)
  {
    var d, q := DigitsOf(lsu, digits), shift / 2;
    forall j | 0 <= j < digits + shift
      ensures UnitDigit(uar, j) == Raised(d, shift)[j]
    {
      SplitDigit(lsu, digits, q, j);
    }
  }

  lemma SplitDigit(lsu: seq<nat>, digits: nat, q: nat, j: nat)
    requires 0 < digits <= 2 * |lsu| && j < digits + 2 * q + 1
    requires forall i :: 0 <= i < Units(digits) ==> lsu[i] <= 99
    ensures var u := SplitUnit(lsu, Units(digits), q, j / 2);
      (if j % 2 == 0 then u % 10 else u / 10) == if j < 2 * q + 1 then 0 else UnitDigit(lsu, j - (2 * q + 1))
  {
    var t := j / 2;
    if j % 2 == 0 {
      assert j >= 2 * q + 1 ==> (j - (2 * q + 1)) / 2 == t - q - 1 && (j - (2 * q + 1)) % 2 == 1;
    } else {
      assert j >= 2 * q + 1 ==> (j - (2 * q + 1)) / 2 == t - q && (j - (2 * q + 1)) % 2 == 0;
    }
  }

  lemma WholeDigits(lsu: seq<nat>, uar: seq<nat>, digits: nat, shift: nat)
    requires 0 < digits && shift % 2 == 0 && digits <= 2 * |lsu| && digits + shift <= 2 * |uar|
    requires forall t :: 0 <= t < Units(digits + shift) ==> uar[t] == if t < shift / 2 then 0 else lsu[t - shift / 2]
    ensures DigitsOf(uar, digits + shift) == Raised(DigitsOf(lsu, digits), shift)
  {
    forall j | 0 <= j < digits + shift
      ensures UnitDigit(uar, j) == Raised(DigitsOf(lsu, digits), shift)[j]
    {
      assert j >= shift ==> (j - shift) / 2 == j / 2 - shift / 2 && (j - shift) % 2 == j % 2;
    }
  }

  // ---- packing ----

  /** The units in use hold the digits d. */
  predicate Holds(lsu: seq<nat>, d: seq<nat>) {
    && |d| <= 2 * |lsu| && d == DigitsOf(lsu, |d|) && AllDigits(d)
    && (forall i :: 0 <= i < Units(|d|) ==> lsu[i] <= 99) && (|d| % 2 == 1 ==> lsu[|d| / 2] <= 9)
  }

  /** t digits have been taken; the unit inu is at hand, cut of its digits gone. */
  predicate Taking(lsu: seq<nat>, d: seq<nat>, t: nat, inu: nat, in_: nat, cut: nat) {
    && t < |d| && inu == t / 2 < |lsu| && cut == t % 2 && in_ == if cut == 0 then lsu[inu] else lsu[inu] / 10
  }

  /** Takes one digit, and goes on to the next unit unless it was the last. */
  method TakeDigit(lsu: array<nat>, ghost d: seq<nat>, ghost t: nat, inu: nat, in_: nat, cut: nat, last: bool)
    returns (dig: nat, inu': nat, in': nat, cut': nat)
    requires Holds(lsu[..], d) && Taking(lsu[..], d, t, inu, in_, cut) && (last <==> t == |d| - 1)
    ensures dig == d[t] && (!last ==> Taking(lsu[..], d, t + 1, inu', in', cut'))
  {
    Tenth(in_);
    var temp := in_ * 6554 / 0x1_0000;
    dig, inu', in', cut' := in_ - temp * 10, inu, temp, cut;
    assert d[t] == UnitDigit(lsu[..], t);
    if last { return; }
    cut' := cut' + 1;
    if cut' == DIGITS_PER_UNIT {
      inu' := inu' + 1;
      in', cut' := lsu[inu'], 0;
    }
  }

  /** Collects up to three digits as a number. */
  method TakeBin(lsu: array<nat>, ghost d: seq<nat>, digits: nat, inu: nat, in_: nat, cut: nat)
    returns (bin: nat, digits': nat, inu': nat, in': nat, cut': nat)
    requires Holds(lsu[..], d) && 0 < digits <= |d| && Taking(lsu[..], d, |d| - digits, inu, in_, cut)
    ensures bin == Bin(d[|d| - digits..]) && digits' == (if digits > 3 then digits - 3 else 0)
    ensures digits' > 0 ==> Taking(lsu[..], d, |d| - digits', inu', in', cut')
  {
    hide Holds, Taking;
    ghost var t := |d| - digits;
    bin, digits', inu', in', cut' := 0, digits, inu, in_, cut;
    var dig;
    dig, inu', in', cut' := TakeDigit(lsu, d, t, inu', in', cut', digits' == 1);
    bin, digits' := dig, digits' - 1;
    if digits' == 0 { return; }
    dig, inu', in', cut' := TakeDigit(lsu, d, t + 1, inu', in', cut', digits' == 1);
    bin, digits' := bin + dig * 10, digits' - 1;
    if digits' == 0 { return; }
    dig, inu', in', cut' := TakeDigit(lsu, d, t + 2, inu', in', cut', digits' == 1);
    bin, digits' := bin + dig * 100, digits' - 1;
  }

  lemma BeyondTail(d: seq<nat>, t: nat)
    requires t < |d|
    ensures var u := if t + 3 < |d| then t + 3 else |d|;
      Beyond(d[t..]) == d[u..] && Declets(d[t..]) == Encode(Bin(d[t..])) + 1024 * Declets(d[u..])
  {
    if t + 3 < |d| { assert d[t..][3..] == d[t + 3..]; } else { assert d[|d|..] == []; }
    hide Encode, Bin;
  }

  lemma DecletsLeft(total: nat, words: nat, e: nat, rest: nat, n: nat)
    requires words + Scaled(e + 1024 * rest, 10 * n) == total
    ensures words + Scaled(e, 10 * n) + Scaled(rest, 10 * (n + 1)) == total
  {
    ScaledByTen(rest, 10 * n);
    hide Two;
    assert (e + 1024 * rest) * Two(10 * n) == e * Two(10 * n) + 1024 * (rest * Two(10 * n));
  }

  /** Words enough for that many digits. */
  predicate WordsFor(digits: nat, words: nat) {
    0 < words && (digits + 2) / 3 * 10 < 32 * words && digits <= MAX_DIGITS
  }

  /** Packs the digits of d, from the units that hold them, into words that were clear. */
  method PackDigits(lsu: array<nat>, ghost d: seq<nat>, digits0: nat, targ: array<nat>)
    requires lsu != targ && Holds(lsu[..], d) && 0 < digits0 == |d| && WordsFor(digits0, targ.Length)
    requires forall i :: 0 <= i < targ.Length ==> targ[i] == 0
    modifies targ
    ensures Words(targ[..]) == Declets(d) && forall i :: 0 <= i < targ.Length ==> targ[i] < 0x1_0000_0000
  {
    hide *;
    SomeWords(digits0, targ.Length);
    PackBegins(lsu[..], d, targ[..]);
    var digits, inu: nat, in_: nat, cut: nat, i: nat, off: nat := digits0, 0, lsu[0], 0, 0, 0;
    ghost var n := 0;
    while digits > 0
      invariant 0 <= digits <= |d| && 32 * i + off == 10 * n && off < 32 && i < targ.Length && Clear(targ[..], i, off)
      invariant (digits > 0 ==> digits == |d| - 3 * n && Taking(lsu[..], d, |d| - digits, inu, in_, cut))
      invariant Words(targ[..]) + Scaled(Declets(d[|d| - digits..]), 10 * n) == Declets(d)
      decreases digits
    {
      ghost var t := |d| - digits;
      PackRoom(|d|, targ.Length, n, i, off);
      DigitsTail(lsu[..], d, t);
      BeyondTail(d, t);
      var bin;
      bin, digits, inu, in_, cut := TakeBin(lsu, d, digits, inu, in_, cut);
      var dpd := BinToDpd(bin);
      DecletsLeft(Declets(d), Words(targ[..]), dpd, Declets(d[|d| - digits..]), n);
      i, off := WriteDeclet(targ, i, off, dpd);
      n := n + 1;
    }
    PackEnds(d, targ[..], i, off, n);
  }

  lemma SomeWords(digits: nat, words: nat)
    requires WordsFor(digits, words)
    ensures words > 0 && digits <= MAX_DIGITS
  {
  }

  lemma PackBegins(lsu: seq<nat>, d: seq<nat>, w: seq<nat>)
    requires Holds(lsu, d) && d != [] && w != [] && forall i :: 0 <= i < |w| ==> w[i] == 0
    ensures |lsu| > 0 && Clear(w, 0, 0) && Taking(lsu, d, 0, 0, lsu[0], 0)
    ensures Words(w) + Scaled(Declets(d[0..]), 0) == Declets(d)
  {
    WordsZero(w);
    TwoFacts();
    assert d[0..] == d;
    hide Declets, Two;
  }

  lemma {:induction false} WordsZero(w: seq<nat>)
    requires forall i :: 0 <= i < |w| ==> w[i] == 0
    ensures Words(w) == 0
  {
    if w != [] { WordsZero(w[1..]); }
  }

  lemma PackRoom(digits: nat, words: nat, n: nat, i: nat, off: nat)
    requires WordsFor(digits, words) && 3 * n < digits && 32 * i + off == 10 * n
    ensures off + 10 >= 32 ==> i + 1 < words
  {
  }

  lemma DigitsTail(lsu: seq<nat>, d: seq<nat>, t: nat)
    requires Holds(lsu, d) && t <= |d|
    ensures AllDigits(d[t..]) && Bin(d[t..]) < 1000
  {
    BinBound(d[t..]);
  }

  lemma PackEnds(d: seq<nat>, w: seq<nat>, i: nat, off: nat, n: nat)
    requires Clear(w, i, off)
    ensures Scaled(Declets(d[|d|..]), 10 * n) == 0 && d[|d|..] == []
    ensures forall j :: 0 <= j < |w| ==> w[j] < 0x1_0000_0000
  {
    assert Declets([]) == 0;
  }

  /** The working copy of the units, moved up. */
  method ShiftUnits(lsu: array<nat>, ghost d: seq<nat>, digits: nat, shift: nat) returns (uar: array<nat>)
    requires Holds(lsu[..], d) && 0 < digits == |d| && digits + shift <= MAX_DIGITS
    ensures fresh(uar) && Holds(uar[..], Raised(d, shift))
  {
    hide *;
    UnitsFit(lsu[..], d, shift);
    uar := new nat[MAX_UNITS];
    if shift % 2 == 0 {
      ShiftWhole(lsu, digits, shift, uar);
      assert forall t :: 0 <= t < Units(digits + shift) ==> uar[..][t] == if t < shift / 2 then 0 else lsu[..][t - shift / 2];
      WholeDigits(lsu[..], uar[..], digits, shift);
    } else {
      ShiftSplit(lsu, digits, shift, uar);
      assert forall t :: 0 <= t < Units(digits + shift) ==> uar[..][t] == SplitUnit(lsu[..], Units(digits), shift / 2, t);
      SplitDigits(lsu[..], uar[..], digits, shift);
    }
    ShiftedHolds(lsu[..], uar[..], digits, shift);
  }

  lemma UnitsFit(lsu: seq<nat>, d: seq<nat>, shift: nat)
    requires Holds(lsu, d) && |d| + shift <= MAX_DIGITS
    ensures Units(|d| + shift) <= Units(|d|) + shift / 2 + shift % 2 && Units(|d| + shift) <= 17
    ensures Units(|d|) <= |lsu| && |d| <= 2 * |lsu| && d == DigitsOf(lsu, |d|) && MAX_UNITS == 17 && MAX_DIGITS == 34
    ensures forall i :: 0 <= i < Units(|d|) ==> lsu[i] <= 99
  {
  }

  /** decDigitsToDPD: the coefficient times a power of ten, densely packed. */
  method DigitsToDPD(dn: DecNumber, targ: array<nat>, shift: nat)
    requires dn.Valid() && dn.lsu != targ && WordsFor(dn.digits + shift, targ.Length)
    requires forall i :: 0 <= i < targ.Length ==> targ[i] == 0
    modifies targ
    ensures Words(targ[..]) == Declets(Raised(dn.Digits(), shift))
    ensures forall i :: 0 <= i < targ.Length ==> targ[i] < 0x1_0000_0000
  {
    hide *;
    NumberHolds(dn);
    SomeWords(dn.digits + shift, targ.Length);
    ghost var d := dn.Digits();
    if shift != 0 {
      var uar := ShiftUnits(dn.lsu, d, dn.digits, shift);
      PackDigits(uar, Raised(d, shift), dn.digits + shift, targ);
    } else {
      RaisedByNone(d);
      PackDigits(dn.lsu, d, dn.digits, targ);
    }
  }

  lemma RaisedByNone(d: seq<nat>)
    ensures Raised(d, 0) == d
  {
  }

  lemma NumberHolds(dn: DecNumber)
    requires dn.Valid()
    ensures 0 < dn.digits <= 2 * dn.lsu.Length && Holds(dn.lsu[..], dn.Digits())
  {
    assert forall i :: 0 <= i < Units(dn.digits) ==> dn.lsu[..][i] == dn.lsu[i];
  }

  lemma ShiftedHolds(lsu: seq<nat>, uar: seq<nat>, digits: nat, shift: nat)
    requires 0 < digits <= 2 * |lsu| && digits + shift <= 2 * |uar| && Holds(lsu, DigitsOf(lsu, digits))
    requires DigitsOf(uar, digits + shift) == Raised(DigitsOf(lsu, digits), shift)
    requires shift % 2 == 1 ==> forall t :: 0 <= t < Units(digits + shift) ==> uar[t] == SplitUnit(lsu, Units(digits), shift / 2, t)
    requires shift % 2 == 0 ==> forall t :: 0 <= t < Units(digits + shift) ==> uar[t] == if t < shift / 2 then 0 else lsu[t - shift / 2]
    ensures Holds(uar, Raised(DigitsOf(lsu, digits), shift))
  {
    var d := DigitsOf(lsu, digits);
    assert AllDigits(Raised(d, shift));
    forall t | 0 <= t < Units(digits + shift)
      ensures uar[t] <= 99 && (t == Units(digits + shift) - 1 && (digits + shift) % 2 == 1 ==> uar[t] <= 9)
    {
      if shift % 2 == 1 { SplitBound(lsu, digits, shift / 2, t); }
    }
  }

  lemma SplitBound(lsu: seq<nat>, digits: nat, q: nat, t: nat)
    requires 0 < digits <= 2 * |lsu| && t < Units(digits + 2 * q + 1)
    requires forall i :: 0 <= i < Units(digits) ==> lsu[i] <= 99
    ensures SplitUnit(lsu, Units(digits), q, t) <= 99
    ensures t == Units(digits + 2 * q + 1) - 1 && digits % 2 == 0 ==> SplitUnit(lsu, Units(digits), q, t) <= 9
  {
  }
}
