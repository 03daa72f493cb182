/** Packed decimal: two digits to a byte and a sign nibble at the end, for arrays of any length. */
module Packed {
  import opened Digits
  import opened DecNumbers

  const PLUS := 0x0C
  const MINUS := 0x0D
  const MINUS_ALT := 0x0B

  /** The greatest adjusted exponent of a number (DECNUMMAXE). */
  const MAX_EXPONENT := 999999999

  // ---- nibbles ----

  /** Nibble k from the right: the sign first, then digits, then zeros. */
  function Nib(d: seq<nat>, sign: nat, k: nat): nat {
    if k == 0 then sign else if k <= |d| then d[k - 1] else 0
  }

  /** The array holding those nibbles. */
  function PackedBytes(d: seq<nat>, sign: nat, length: nat): (b: seq<nat>)
    ensures |b| == length
  {
    seq(length, i requires 0 <= i < length => Nib(d, sign, 2 * (length - 1 - i)) + 16 * Nib(d, sign, 2 * (length - 1 - i) + 1))
  }

  function NibbleOf(b: seq<nat>, k: nat): nat
    requires k / 2 < |b|
  {
    if k % 2 == 0 then b[|b| - 1 - k / 2] % 16 else b[|b| - 1 - k / 2] / 16
  }

  function SignOf(b: seq<nat>): nat
    requires b != []
  {
    NibbleOf(b, 0)
  }

  /** All nibbles but the sign, from the right. */
  function DigitsIn(b: seq<nat>): (d: seq<nat>)
    requires b != []
    ensures |d| == 2 * |b| - 1
  {
    seq(2 * |b| - 1, i requires 0 <= i < 2 * |b| - 1 => NibbleOf(b, i + 1))
  }

  predicate Bytes(b: seq<nat>) {
    forall i :: 0 <= i < |b| ==> b[i] <= 0xff
  }

  /** What is packed can be taken apart again. */
  lemma PackedNibbles(d: seq<nat>, sign: nat, length: nat, k: nat)
    requires AllDigits(d) && sign <= 15 && k < 2 * length
    ensures NibbleOf(PackedBytes(d, sign, length), k) == Nib(d, sign, k)
  {
    var i := length - 1 - k / 2;
    assert PackedBytes(d, sign, length)[i] == Nib(d, sign, 2 * (k / 2)) + 16 * Nib(d, sign, 2 * (k / 2) + 1);
  }

  lemma PackedDigits(d: seq<nat>, sign: nat, length: nat)
    requires AllDigits(d) && sign <= 15 && 0 < length && |d| <= 2 * length - 1
    ensures var b := PackedBytes(d, sign, length);
      SignOf(b) == sign && DigitsIn(b)[..|d|] == d && AllOf(DigitsIn(b)[|d|..], 0)
  {
    var b := PackedBytes(d, sign, length);
    PackedNibbles(d, sign, length, 0);
    forall i | 0 <= i < 2 * length - 1
      ensures DigitsIn(b)[i] == if i < |d| then d[i] else 0
    {
      PackedNibbles(d, sign, length, i + 1);
    }
    hide NibbleOf, PackedBytes;
  }

  /** An array is the packing of its digits and its sign. */
  lemma RepackedBytes(b: seq<nat>, n: nat)
    requires b != [] && Bytes(b) && n <= 2 * |b| - 1 && AllOf(DigitsIn(b)[n..], 0)
    ensures PackedBytes(DigitsIn(b)[..n], SignOf(b), |b|) == b
  {
    var d := DigitsIn(b)[..n];
    forall k | 0 <= k < 2 * |b|
      ensures Nib(d, SignOf(b), k) == NibbleOf(b, k)
    {
      if k > n { assert DigitsIn(b)[n..][k - 1 - n] == DigitsIn(b)[k - 1]; }
    }
    forall i | 0 <= i < |b|
      ensures PackedBytes(d, SignOf(b), |b|)[i] == b[i]
    {
      var k := 2 * (|b| - 1 - i);
      assert k / 2 == |b| - 1 - i && (k + 1) / 2 == |b| - 1 - i;
      assert NibbleOf(b, k) == b[i] % 16 && NibbleOf(b, k + 1) == b[i] / 16;
    }
  }

  // ---- packing ----

  /** Where the next digit is read: u holds cut digits of unit up, and t digits have been read. */
  predicate Cursor(lsu: seq<nat>, t: nat, up: nat, u: nat, cut: nat) {
    && up < |lsu| && cut <= 2 && t + cut == 2 * up + 2
    && (cut == 2 ==> u == lsu[up]) && (cut == 1 ==> u == lsu[up] / 10)
  }

  /** Takes the next digit off the number, going on to the next unit when one is used up. */
  method NextDigit(lsu: array<nat>, ghost t: nat, up: nat, u: nat, cut: nat) returns (nib: nat, up': nat, u': nat, cut': nat)
    requires Cursor(lsu[..], t, up, u, cut) && t / 2 < lsu.Length && lsu[t / 2] <= 99
    ensures nib == UnitDigit(lsu[..], t) && Cursor(lsu[..], t + 1, up', u', cut')
  {
    up', u', cut' := up, u, cut;
    if cut' == 0 {
      up' := up' + 1;
      u' := lsu[up'];
      cut' := 2;
    }
    Tenth(u');
    var temp := u' * 6554 / 0x1_0000;
    nib := u' - temp * 10;
    u' := temp;
    cut' := cut' - 1;
  }

  function Least(a: nat, b: nat): nat {
    if a <= b then a else b
  }

  /** k nibbles have been filled; indigs digits of d are still to be read. */
  predicate Filling(lsu: seq<nat>, d: seq<nat>, k: nat, indigs: nat, up: nat, u: nat, cut: nat) {
    && 0 < |d| <= 2 * |lsu| && d == DigitsOf(lsu, |d|) && (forall i :: 0 <= i < (|d| + 1) / 2 ==> lsu[i] <= 99)
    && indigs == |d| - Least(|d|, k) && Cursor(lsu, Least(|d|, k), up, u, cut)
  }

  /** The next nibble: a digit while there are any, and then zero. */
  method NextNibble(lsu: array<nat>, ghost d: seq<nat>, ghost k: nat, indigs: nat, up: nat, u: nat, cut: nat)
    returns (nib: nat, indigs': nat, up': nat, u': nat, cut': nat)
    requires Filling(lsu[..], d, k, indigs, up, u, cut)
    ensures nib == Nib(d, 0, k + 1) && Filling(lsu[..], d, k + 1, indigs', up', u', cut')
  {
    nib, indigs', up', u', cut' := 0, indigs, up, u, cut;
    if indigs > 0 {
      nib, up', u', cut' := NextDigit(lsu, k, up, u, cut);
      indigs' := indigs - 1;
    }
  }

  /** Fills the whole array from its last byte on. */
  method FillBytes(bcd: array<nat>, lsu: array<nat>, digits: nat, sign: nat, ghost d: seq<nat>)
    requires bcd != lsu && 0 < digits == |d| && lsu.Length > 0 && Filling(lsu[..], d, 0, digits, 0, lsu[0], DIGITS_PER_UNIT)
    modifies bcd
    ensures bcd[..] == PackedBytes(d, sign, bcd.Length)
  {
    hide *;
    var obyte: nat, up: nat, u: nat, cut: nat, indigs: nat := sign, 0, lsu[0], DIGITS_PER_UNIT, digits;
    var out: int, nib: nat := bcd.Length - 1, 0;
    ghost var k, b := 0, PackedBytes(d, sign, bcd.Length);
    NibbleFacts(d, sign, bcd.Length);
    while out >= 0
      invariant -1 <= out < bcd.Length && k == 2 * (bcd.Length - 1 - out) && obyte == Nib(d, sign, k)
      invariant Filling(lsu[..], d, k, indigs, up, u, cut) && bcd[out + 1..] == b[out + 1..]
    {
      nib, indigs, up, u, cut := NextNibble(lsu, d, k, indigs, up, u, cut);
      obyte := obyte + nib * 16;
      PackedByte(d, sign, bcd.Length, out);
      ghost var was := bcd[..];
      bcd[out] := obyte;
      OneByte(was, bcd[..], b, out);
      obyte, indigs, up, u, cut := NextNibble(lsu, d, k + 1, indigs, up, u, cut);
      NoSign(d, sign, k + 2);
      out := out - 1;
      k := k + 2;
    }
  }

  lemma OneByte(was: seq<nat>, now: seq<nat>, b: seq<nat>, out: nat)
    requires out < |was| == |b| && was[out + 1..] == b[out + 1..] && now == was[out := b[out]]
    ensures now[out..] == b[out..]
  {
    assert now[out..] == [b[out]] + was[out + 1..] && b[out..] == [b[out]] + b[out + 1..];
  }

  /** decPackedFromNumber: packs the number, if it is finite and its digits fit. */
  method PackedFromNumber(bcd: array<nat>, dn: DecNumber) returns (ok: bool, scale: int)
    requires dn.Valid() && bcd != dn.lsu
    modifies bcd
    ensures ok <==> dn.digits <= bcd.Length * 2 - 1 && dn.kind == Ordinary
    ensures ok ==> scale == 0 - dn.exponent && bcd[..] == PackedBytes(dn.Digits(), if dn.neg then MINUS else PLUS, bcd.Length)
    ensures ok ==> bcd[bcd.Length - 1] % 16 == if dn.neg then 13 else 12
    ensures !ok ==> bcd[..] == old(bcd[..])
  {
    if dn.digits > bcd.Length * 2 - 1 || dn.kind != Ordinary {
      return false, 0;
    }
    scale := 0 - dn.exponent;
    FillBytes(bcd, dn.lsu, dn.digits, if dn.neg then MINUS else PLUS, dn.Digits());
    PackedNibbles(dn.Digits(), if dn.neg then 13 else 12, bcd.Length, 0);
    ok := true;
  }

  lemma NibbleFacts(d: seq<nat>, sign: nat, length: nat)
    ensures Nib(d, sign, 0) == sign && PackedBytes(d, sign, length)[length..] == []
  {
  }

  lemma NoSign(d: seq<nat>, sign: nat, k: nat)
    requires k > 0
    ensures Nib(d, 0, k) == Nib(d, sign, k)
  {
  }

  lemma PackedByte(d: seq<nat>, sign: nat, length: nat, out: nat)
    requires out < length
    ensures PackedBytes(d, sign, length)[out] == Nib(d, sign, 2 * (length - 1 - out)) + Nib(d, 0, 2 * (length - 1 - out) + 1) * 16
  {
    var k := 2 * (length - 1 - out);
    NoSign(d, sign, k + 1);
    hide Nib;
    assert PackedBytes(d, sign, length)[out] == Nib(d, sign, k) + 16 * Nib(d, sign, k + 1);
  }

  // ---- unpacking ----

  predicate IsSignNibble(nib: nat) {
    nib > 9
  }

  predicate MinusSign(nib: nat) {
    nib == MINUS || nib == MINUS_ALT
  }

  /** The bound on the adjusted exponent that can be exceeded: the lower one for a scale that is not negative. */
  predicate InRange(digits: nat, scale: int) {
    if scale >= 0 then digits - scale - 1 >= 0 - MAX_EXPONENT else digits - scale - 1 <= MAX_EXPONENT
  }

  /** For as many digits as a number may have, that is the range of the adjusted exponent. */
  lemma AdjustedInRange(digits: nat, scale: int)
    requires 0 < digits <= 1000000000
    ensures InRange(digits, scale) <==> -999999999 <= digits - scale - 1 <= 999999999
  {
  }

  /** What unpacking accepts: a sign nibble at the end, digits everywhere else, and an exponent in range. */
  predicate Acceptable(b: seq<nat>, scale: int)
    requires b != []
  {
    IsSignNibble(SignOf(b)) && AllDigits(DigitsIn(b)) && InRange(|Trim(DigitsIn(b))|, scale)
  }

  /** Finds the first byte that is not zero; there is one, since the sign is not. */
  method FirstByte(bcd: array<nat>) returns (first: nat)
    requires bcd.Length > 0 && bcd[bcd.Length - 1] != 0
    ensures first < bcd.Length && bcd[first] != 0 && forall i :: 0 <= i < first ==> bcd[i] == 0
  {
    first := 0;
    while bcd[first] == 0
      invariant first < bcd.Length && forall i :: 0 <= i < first ==> bcd[i] == 0
      decreases bcd.Length - first
    {
      first := first + 1;
    }
  }

  /** The digits counted from the first byte that is not zero, less a leading zero nibble. */
  method CountDigits(bcd: array<nat>) returns (digits: nat)
    requires bcd.Length > 0 && Bytes(bcd[..]) && IsSignNibble(SignOf(bcd[..]))
    ensures digits <= 2 * bcd.Length - 1 && AllOf(DigitsIn(bcd[..])[digits..], 0)
    ensures digits > 0 ==> DigitsIn(bcd[..])[digits - 1] != 0
  {
    var first := FirstByte(bcd);
    digits := (bcd.Length - 1 - first) * 2 + 1;
    ghost var d := DigitsIn(bcd[..]);
    assert d[digits - 1] == bcd[first] / 16;
    LeadingBytes(bcd[..], first);
    if bcd[first] / 16 == 0 {
      digits := digits - 1;
      LeadingNibble(bcd[..], first);
    }
  }

  lemma LeadingBytes(b: seq<nat>, first: nat)
    requires first < |b| && forall i :: 0 <= i < first ==> b[i] == 0
    ensures AllOf(DigitsIn(b)[2 * (|b| - 1 - first) + 1..], 0)
  {
    var n := 2 * (|b| - 1 - first) + 1;
    forall i | 0 <= i < 2 * |b| - 1 - n
      ensures DigitsIn(b)[n..][i] == 0
    {
      assert b[|b| - 1 - (n + i + 1) / 2] == 0;
    }
  }

  lemma LeadingNibble(b: seq<nat>, first: nat)
    requires first < |b| && b[first] != 0 && b[first] / 16 == 0 && AllOf(DigitsIn(b)[2 * (|b| - 1 - first) + 1..], 0)
    ensures var n := 2 * (|b| - 1 - first);
      AllOf(DigitsIn(b)[n..], 0) && (n > 0 ==> DigitsIn(b)[n - 1] != 0)
  {
    var d, n := DigitsIn(b), 2 * (|b| - 1 - first);
    assert d[n] == NibbleOf(b, n + 1) == b[first] / 16;
    assert n > 0 ==> d[n - 1] == NibbleOf(b, n) == b[first] % 16;
    forall i | 0 <= i < |d| - n
      ensures d[n..][i] == 0
    {
      if i > 0 { assert d[n + 1..][i - 1] == d[n..][i]; }
    }
  }

  /** The first j digits of d have been stored. */
  predicate Stored(lsu: seq<nat>, d: seq<nat>, j: nat) {
    && j <= 2 * |lsu| && j <= |d|
    && (forall i :: 0 <= i < j ==> UnitDigit(lsu, i) == d[i] <= 9)
    && (forall i :: 0 <= i < (j + 1) / 2 ==> lsu[i] <= 99)
    && (j % 2 == 1 ==> lsu[j / 2] <= 9)
  }

  /** Starts a unit with a digit, or adds one at the tens of a unit. */
  method StoreDigit(lsu: array<nat>, ghost d: seq<nat>, ghost j: nat, up: nat, cut: nat, nib: nat)
    requires Stored(lsu[..], d, j) && j < |d| && nib == d[j] <= 9 && up == j / 2 < lsu.Length && cut == j % 2
    modifies lsu
    ensures Stored(lsu[..], d, j + 1)
  {
    if cut == 0 {
      lsu[up] := nib;
    } else {
      lsu[up] := lsu[up] + nib * 10;
    }
    forall i | 0 <= i < j + 1
      ensures UnitDigit(lsu[..], i) == d[i] <= 9
    {
      if i / 2 != up { assert UnitDigit(lsu[..], i) == UnitDigit(old(lsu[..]), i); }
    }
  }

  lemma NothingStored(lsu: seq<nat>, d: seq<nat>)
    ensures Stored(lsu, d, 0)
  {
  }

  lemma NibbleAt(b: seq<nat>, i: nat)
    requires b != [] && i < 2 * |b| - 1
    ensures DigitsIn(b)[i] == if i % 2 == 0 then b[|b| - 1 - i / 2] / 16 else b[|b| - 1 - (i + 1) / 2] % 16
  {
  }

  /** Copies digits from the last byte on, the left nibble of a byte before the right one of the next,
      until all are stored or something that is not a digit is met. */
  method StoreDigits(bcd: array<nat>, n: nat, lsu: array<nat>) returns (ok: bool)
    requires bcd != lsu && 0 < n <= 2 * bcd.Length - 1 && bcd.Length <= lsu.Length
    modifies lsu
    ensures ok <==> AllDigits(DigitsIn(bcd[..])[..n])
    ensures ok ==> Stored(lsu[..], DigitsIn(bcd[..]), n)
  {
    ghost var d := DigitsIn(bcd[..]);
    var digits: nat, last: int, up: nat, cut: nat := n, bcd.Length - 1, 0, 0;
    ghost var j := 0;
    hide Stored, DigitsIn;
    NothingStored(lsu[..], d);
    while true
      invariant 0 < digits && j + digits == n && j % 2 == 0 && last == bcd.Length - 1 - j / 2 && up == j / 2 && cut == 0
      invariant Stored(lsu[..], d, j) && AllDigits(d[..j])
      decreases digits
    {
      NibbleAt(bcd[..], j);
      var nib := bcd[last] / 16;
      if nib > 9 {
        NotAllDigits(d, n, j);
        return false;
      }
      StoreDigit(lsu, d, j, up, cut, nib);
      MoreDigits(d, j);
      digits, j := digits - 1, j + 1;
      if digits == 0 { break; }
      up, cut := NextPlace(up, cut);
      last := last - 1;
      NibbleAt(bcd[..], j);
      nib := bcd[last] % 16;
      if nib > 9 {
        NotAllDigits(d, n, j);
        return false;
      }
      StoreDigit(lsu, d, j, up, cut, nib);
      MoreDigits(d, j);
      digits, j := digits - 1, j + 1;
      if digits == 0 { break; }
      up, cut := NextPlace(up, cut);
    }
    ok := true;
  }

  lemma MoreDigits(d: seq<nat>, j: nat)
    requires j < |d| && AllDigits(d[..j]) && d[j] <= 9
    ensures AllDigits(d[..j + 1])
  {
    assert d[..j + 1] == d[..j] + [d[j]];
  }

  lemma NotAllDigits(d: seq<nat>, n: nat, j: nat)
    requires j < n <= |d| && d[j] > 9
    ensures !AllDigits(d[..n])
  {
    assert d[..n][j] == d[j];
  }

  /** The next place in the units. */
  method NextPlace(up: nat, cut: nat) returns (up': nat, cut': nat)
    requires cut < DIGITS_PER_UNIT
    ensures if cut == 1 then up' == up + 1 && cut' == 0 else up' == up && cut' == cut + 1
  {
    up', cut' := up, cut + 1;
    if cut' == DIGITS_PER_UNIT {
      up', cut' := up' + 1, 0;
    }
  }

  /** Whether the exponent that goes with a scale is in range, tested so that nothing can wrap. */
  method ScaleInRange(digits: nat, scale: int) returns (ok: bool)
    requires digits > 0
    ensures ok <==> InRange(digits, scale)
  {
    if scale >= 0 {
      ok := !(digits - scale - 1 < 0 - MAX_EXPONENT);
    } else {
      ok := !(scale < 0 - MAX_EXPONENT || digits - scale - 1 > MAX_EXPONENT);
    }
  }

  /** Eleven and thirteen are minus signs; the other sign nibbles are plus. */
  lemma MinusNibbles(nib: nat)
    ensures MinusSign(nib) <==> nib in {11, 13}
  {
  }

  /** decPackedToNumber: unpacks an acceptable array; anything else leaves the number zero. */
  method PackedToNumber(bcd: array<nat>, scale: int, dn: DecNumber) returns (ok: bool)
    requires bcd.Length > 0 && Bytes(bcd[..]) && dn.lsu != bcd && bcd.Length <= dn.lsu.Length
    modifies dn`digits, dn`exponent, dn`neg, dn`kind, dn.lsu
    ensures ok <==> Acceptable(bcd[..], scale)
    ensures ok ==> dn.Valid() && dn.Digits() == Trim(DigitsIn(bcd[..])) && dn.neg == MinusSign(SignOf(bcd[..]))
    ensures ok ==> dn.kind == Ordinary && dn.exponent == 0 - scale
    ensures ok ==> (dn.neg <==> bcd[bcd.Length - 1] % 16 in {11, 13})
    ensures !ok ==> dn.Valid() && dn.Digits() == [0] && !dn.neg && dn.kind == Ordinary && dn.exponent == 0
  {
    hide *;
    dn.Zero();
    var nib := bcd[bcd.Length - 1] % 16;
    SignNibble(bcd[..], scale);
    if !IsSignNibble(nib) {
      return false;
    }
    var digits := CountDigits(bcd);
    Accepts(bcd[..], scale, digits);
    ok := ScaleInRange(if digits == 0 then 1 else digits, scale);
    if ok && digits > 0 {
      ok := StoreDigits(bcd, digits, dn.lsu);
    }
    if !ok {
      dn.Zero();
      return;
    }
    ghost var was := dn.lsu[..];
    MinusNibbles(nib);
    dn.neg, dn.exponent := MinusSign(nib), 0 - scale;
    if digits != 0 {
      dn.digits := digits;
      StoredNumber(dn, DigitsIn(bcd[..]));
    } else {
      ZeroNumber(dn);
    }
  }

  lemma SignNibble(b: seq<nat>, scale: int)
    requires b != []
    ensures SignOf(b) == b[|b| - 1] % 16 && (Acceptable(b, scale) ==> IsSignNibble(SignOf(b)))
  {
  }

  /** What is accepted, in terms of the digits counted. */
  lemma Accepts(b: seq<nat>, scale: int, n: nat)
    requires b != [] && n <= 2 * |b| - 1 && AllOf(DigitsIn(b)[n..], 0) && (n > 0 ==> DigitsIn(b)[n - 1] != 0)
    requires IsSignNibble(SignOf(b))
    ensures Acceptable(b, scale) <==> AllDigits(DigitsIn(b)[..n]) && InRange(if n == 0 then 1 else n, scale)
    ensures Trim(DigitsIn(b)) == if n == 0 then [0] else DigitsIn(b)[..n]
    ensures n == 0 ==> AllDigits(DigitsIn(b)[..n])
  {
    CountedDigits(DigitsIn(b), n);
  }

  lemma ZeroNumber(dn: DecNumber)
    requires dn.digits == 1 && 0 < dn.lsu.Length && dn.lsu[0] == 0
    ensures dn.Valid() && dn.Digits() == [0]
  {
  }

  lemma CountedDigits(d: seq<nat>, n: nat)
    requires n <= |d| && d != [] && AllOf(d[n..], 0) && (n > 0 ==> d[n - 1] != 0)
    ensures Trim(d) == if n == 0 then [0] else d[..n]
    ensures AllDigits(d) <==> AllDigits(d[..n])
  {
    if n == 0 {
      assert d[0] == d[n..][0] == 0;
      assert AllOf(d[1..], 0) by {
        assert forall i :: 0 <= i < |d| - 1 ==> d[1..][i] == d[n..][i + 1];
      }
      TrimLength(d, 1);
      assert d[..1] == [0];
    } else {
      TrimLength(d, n);
    }
    if AllDigits(d[..n]) {
      forall i | 0 <= i < |d|
        ensures d[i] <= 9
      {
        if i < n { assert d[i] == d[..n][i]; } else { assert d[i] == d[n..][i - n]; }
      }
    }
  }

  lemma StoredNumber(dn: DecNumber, d: seq<nat>)
    requires 0 < dn.digits <= |d| && Stored(dn.lsu[..], d, dn.digits) && d[dn.digits - 1] != 0
    ensures dn.Valid() && dn.Digits() == d[..dn.digits]
  {
    assert dn.Digits() == d[..dn.digits];
    assert forall i :: 0 <= i < (dn.digits + 1) / 2 ==> dn.lsu[i] == dn.lsu[..][i];
  }

  // ---- what the bytes are worth ----

  /** A byte string read as decimal digits, the most significant first, two to a byte. */
  function Hundreds(b: seq<nat>): nat {
    if b == [] then 0 else 100 * Hundreds(b[..|b| - 1]) + b[|b| - 1] / 16 * 10 + b[|b| - 1] % 16
  }

  lemma LowerDigits(b: seq<nat>)
    requires |b| > 1
    ensures DigitsIn(b)[1] == b[|b| - 2] % 16 && DigitsIn(b)[2..] == DigitsIn(b[..|b| - 1])
  {
    var a := b[..|b| - 1];
    forall i | 0 <= i < 2 * |a| - 1
      ensures DigitsIn(b)[2..][i] == DigitsIn(a)[i]
    {
      NibbleAt(b, i + 2);
      NibbleAt(a, i);
    }
  }

  /** The digits of an array make the number that its bytes, but for the sign nibble, spell from left to right. */
  lemma {:induction false} DigitsWorth(b: seq<nat>)
    requires b != [] && Bytes(b)
    ensures Value(DigitsIn(b)) == 10 * Hundreds(b[..|b| - 1]) + b[|b| - 1] / 16
  {
    var n, d := |b|, DigitsIn(b);
    assert d[0] == b[n - 1] / 16;
    if n == 1 {
      assert d[1..] == [] && b[..0] == [];
    } else {
      var a := b[..n - 1];
      DigitsWorth(a);
      LowerDigits(b);
      assert d[1..][1..] == DigitsIn(a) && d[1..][0] == b[n - 2] % 16;
      assert a[..n - 2] == b[..n - 2] && a[n - 2] == b[n - 2];
      hide DigitsIn;
    }
  }

  /** An array is accepted when every nibble but the last is a digit and the last is none, with an exponent in range. */
  lemma AcceptedBytes(b: seq<nat>, scale: int)
    requires b != [] && Bytes(b)
    ensures Acceptable(b, scale) <==>
      && 10 <= b[|b| - 1] % 16 && b[|b| - 1] / 16 <= 9
      && (forall i :: 0 <= i < |b| - 1 ==> b[i] / 16 <= 9 && b[i] % 16 <= 9)
      && InRange(|Trim(DigitsIn(b))|, scale)
  {
    var n := |b|;
    hide Trim;
    if AllDigits(DigitsIn(b)) {
      NibbleAt(b, 0);
      forall i | 0 <= i < n - 1
        ensures b[i] / 16 <= 9 && b[i] % 16 <= 9
      {
        NibbleAt(b, 2 * (n - 1 - i));
        NibbleAt(b, 2 * (n - 1 - i) - 1);
      }
    }
    if b[n - 1] / 16 <= 9 && forall i :: 0 <= i < n - 1 ==> b[i] / 16 <= 9 && b[i] % 16 <= 9 {
      forall i | 0 <= i < 2 * n - 1
        ensures DigitsIn(b)[i] <= 9
      {
        NibbleAt(b, i);
      }
    }
  }

  // ---- the round trips ----

  /** Unpacking undoes packing: digits, sign and exponent come back, zeros included. */
  lemma UnpackedPacked(d: seq<nat>, neg: bool, length: nat, scale: int)
    requires Trimmed(d) && 0 < length && |d| <= 2 * length - 1
    ensures var b := PackedBytes(d, if neg then MINUS else PLUS, length);
      && Trim(DigitsIn(b)) == d && MinusSign(SignOf(b)) == neg
      && (Acceptable(b, scale) <==> InRange(|d|, scale))
  {
    var sign := if neg then MINUS else PLUS;
    var b := PackedBytes(d, sign, length);
    PackedDigits(d, sign, length);
    var e := DigitsIn(b);
    TrimPadded(d, e[|d|..]);
    assert e == d + e[|d|..];
  }

  /** Packing undoes unpacking, byte for byte, but for the sign nibble, which becomes the preferred one. */
  lemma RepackedUnpacked(b: seq<nat>, scale: int)
    requires b != [] && Bytes(b) && Acceptable(b, scale)
    ensures var c := PackedBytes(Trim(DigitsIn(b)), if MinusSign(SignOf(b)) then MINUS else PLUS, |b|);
      && |Trim(DigitsIn(b))| <= 2 * |b| - 1 && c[..|b| - 1] == b[..|b| - 1]
      && c[|b| - 1] / 16 == b[|b| - 1] / 16 && (c == b <==> SignOf(b) == PLUS || SignOf(b) == MINUS)
  {
    var d := Trim(DigitsIn(b));
    PadTrimmed(DigitsIn(b));
    RepackedBytes(b, |d|);
    var s := if MinusSign(SignOf(b)) then MINUS else PLUS;
    var c := PackedBytes(d, s, |b|);
    hide Trim, DigitsIn;
    OtherSign(d, SignOf(b), s, |b|);
  }

  lemma OtherSign(d: seq<nat>, s: nat, t: nat, length: nat)
    requires length > 0 && s <= 15 && t <= 15
    ensures var b, c := PackedBytes(d, s, length), PackedBytes(d, t, length);
      c[..length - 1] == b[..length - 1] && c[length - 1] / 16 == b[length - 1] / 16 && (c == b <==> s == t)
  {
    var b, c := PackedBytes(d, s, length), PackedBytes(d, t, length);
    forall i | 0 <= i < length
      ensures b[i] == Nib(d, s, 2 * (length - 1 - i)) + Nib(d, 0, 2 * (length - 1 - i) + 1) * 16
      ensures c[i] == Nib(d, t, 2 * (length - 1 - i)) + Nib(d, 0, 2 * (length - 1 - i) + 1) * 16
      ensures i < length - 1 ==> c[i] == b[i]
    {
      PackedByte(d, s, length, i);
      PackedByte(d, t, length, i);
    }
    NibbleFacts(d, s, length);
    NibbleFacts(d, t, length);
    hide Nib, PackedBytes;
    assert b[length - 1] == s + Nib(d, 0, 1) * 16 && c[length - 1] == t + Nib(d, 0, 1) * 16;
    assert s == t ==> b == c;
  }
}
