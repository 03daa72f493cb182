/** decDigitsFromDPD: declets back to the digits of a number. */
module DpdUnpack {
  import opened Powers
  import opened Digits
  import opened Billions
  import opened DecNumbers
  import opened Dpd
  import opened DpdWords
  import opened DpdPack

  /** The three digits of a number below one thousand, least significant first. */
  ghost function Three(b: nat): (d: seq<nat>)
    ensures |d| == 3
  {
    var t := TripleOf(b);
    [2 * t.ch + t.cl, 2 * t.bh + t.bl, 2 * t.ah + t.al]
  }

  lemma ThreeShape(b: nat) returns (x: nat, y: nat, z: nat)
    requires b < 1000
    ensures x < 10 && y < 10 && z < 10 && b == 100 * x + 10 * y + z && Three(b) == [z, y, x]
  {
    var t := TripleOf(b);
    NumberOfTriple(b);
    hide TripleOf;
    x, y, z := 2 * t.ah + t.al, 2 * t.bh + t.bl, 2 * t.ch + t.cl;
  }

  /** They are found by division. */
  lemma ThreeParts(b: nat)
    requires b < 1000
    ensures Three(b) == [b % 10, b / 10 % 10, b / 100]
  {
    hide *;
    var x, y, z := ThreeShape(b);
    DigitsOfNumber(x, y, z);
  }

  lemma DigitsOfNumber(x: nat, y: nat, z: nat)
    requires y < 10 && z < 10
    ensures var b := 100 * x + 10 * y + z;
      b % 10 == z && b / 10 % 10 == y && b / 100 == x
  {
    var b := 100 * x + 10 * y + z;
    hide *;
    DivModUnique(b, 10, 10 * x + y, z);
    DivModUnique(10 * x + y, 10, x, y);
    DivModUnique(b, 100, x, 10 * y + z);
  }

  /** The digits of the n low declets of v, least significant first. */
  ghost function Decoded(v: nat, n: nat): (d: seq<nat>)
    ensures |d| == 3 * n
  {
    if n == 0 then [] else Three(Decode(v % 1024)) + Decoded(v / 1024, n - 1)
  }

  /** The lowest three are those of the lowest declet. */
  lemma DecodedOf(x: nat, v: nat, n: nat, a: nat, b: nat, c: nat)
    requires x < 1024 && a <= 9 && b <= 9 && c <= 9 && Decode(x) == 100 * a + 10 * b + c
    ensures Decoded(x + 1024 * v, n + 1) == [c, b, a] + Decoded(v, n)
  {
    hide Decode, Three;
    DivModUnique(x + 1024 * v, 1024, v, x);
    ThreeParts(Decode(x));
    DigitsOfNumber(a, b, c);
  }

  lemma {:induction false} DecodedDigits(v: nat, n: nat)
    ensures AllDigits(Decoded(v, n))
  {
    hide Decode, Three;
    if n > 0 {
      DecodedDigits(v / 1024, n - 1);
      DecodeBounds(v % 1024);
      ThreeDigits(Decode(v % 1024));
    }
  }

  lemma ThreeDigits(b: nat)
    requires b < 1000
    ensures AllDigits(Three(b))
  {
    NumberOfTriple(b);
  }

  // ---- digits into units ----

  /** j digits of d have been stored: whole units below uout, and one digit at hand if j is odd;
      last is the highest unit that is not zero. */
  predicate Filled(lsu: seq<nat>, d: seq<nat>, j: nat, out: nat, cut: nat, uout: nat, last: nat) {
    && j <= |d| && uout == j / 2 <= |lsu| && cut == j % 2
    && (forall i :: 0 <= i < uout ==> lsu[i] == d[2 * i] + 10 * d[2 * i + 1])
    && out == (if cut == 1 then d[j - 1] else 0)
    && (last == 0 || (last < uout && lsu[last] != 0)) && (forall i :: last < i < uout ==> lsu[i] == 0)
  }

  /** Accumulates a digit, and stores the unit once it is full. */
  method PutNibble(lsu: array<nat>, ghost d: seq<nat>, ghost j: nat, nib: nat, out: nat, cut: nat, uout: nat, last: nat)
    returns (out': nat, cut': nat, uout': nat, last': nat)
    requires Filled(lsu[..], d, j, out, cut, uout, last) && j < |d| && nib == d[j]
    requires cut == 1 ==> uout < lsu.Length
    modifies lsu
    ensures Filled(lsu[..], d, j + 1, out', cut', uout', last')
  {
    out', cut', uout', last' := out, cut, uout, last;
    if nib != 0 {
      out' := out' + nib * (if cut == 0 then 1 else 10);
    }
    cut' := cut' + 1;
    if cut' == DIGITS_PER_UNIT {
      lsu[uout'] := out';
      if out' != 0 {
        last', out' := uout', 0;
      }
      uout', cut' := uout' + 1, 0;
    }
  }

  lemma NotYetFull(lsu: seq<nat>, d: seq<nat>, j: nat, out: nat, cut: nat, uout: nat, last: nat, k: nat)
    requires Filled(lsu, d, j, out, cut, uout, last) && j < k && Units(k) <= |lsu|
    ensures uout < |lsu|
  {
  }

  /** The three digits of a declet; for the last declet, only the first if the others are zero. */
  method PutDeclet(lsu: array<nat>, ghost d: seq<nat>, ghost j: nat, b: nat, top: bool, out: nat, cut: nat, uout: nat, last: nat)
    returns (ghost j': nat, out': nat, cut': nat, uout': nat, last': nat)
    requires Filled(lsu[..], d, j, out, cut, uout, last) && j + 3 <= |d| && d[j..j + 3] == Three(b) && b < 1000
    requires Units(if top && b < 10 then j + 1 else j + 3) <= lsu.Length
    modifies lsu
    ensures Filled(lsu[..], d, j', out', cut', uout', last') && j' == (if top && b < 10 then j + 1 else j + 3)
  {
    hide Filled, Three;
    ThreeParts(b);
    ghost var s := Three(b);
    assert d[j] == s[0] && d[j + 1] == s[1] && d[j + 2] == s[2] by { assert d[j] == d[j..j + 3][0]; }
    NotYetFull(lsu[..], d, j, out, cut, uout, last, j + 1);
    out', cut', uout', last' := PutNibble(lsu, d, j, b % 10, out, cut, uout, last);
    j' := j + 1;
    if top && b / 10 == 0 { return; }
    NotYetFull(lsu[..], d, j + 1, out', cut', uout', last', j + 3);
    out', cut', uout', last' := PutNibble(lsu, d, j + 1, b / 10 % 10, out', cut', uout', last');
    NotYetFull(lsu[..], d, j + 2, out', cut', uout', last', j + 3);
    out', cut', uout', last' := PutNibble(lsu, d, j + 2, b / 100, out', cut', uout', last');
    j' := j + 3;
  }

  // ---- declets into digits ----

  lemma DecodedStep(v: nat, n: nat)
    requires n > 0
    ensures Decoded(v, n)[..3] == Three(Decode(v % 1024)) && Decoded(v, n)[3..] == Decoded(v / 1024, n - 1)
  {
    hide Decode;
  }

  /** The units, up to and including the one at hand, once all declets are done. */
  method StoreLast(lsu: array<nat>, ghost d: seq<nat>, ghost j: nat, out: nat, cut: nat, uout: nat, last: nat) returns (last': nat)
    requires Filled(lsu[..], d, j, out, cut, uout, last) && 0 < j && Units(j) <= lsu.Length && AllDigits(d) && AllOf(d[j..], 0)
    modifies lsu
    ensures last' < Units(j) && (last' == 0 || lsu[last'] != 0)
    ensures forall i :: 0 <= i < Units(j) ==> lsu[i] == DigitAt(d, 2 * i) + 10 * DigitAt(d, 2 * i + 1) && (i > last' ==> lsu[i] == 0)
  {
    last' := last;
    assert j < |d| ==> d[j..][0] == d[j] == 0;
    if cut != 0 {
      lsu[uout] := out;
      if out != 0 {
        last' := uout;
      }
    }
  }

  /** The number of digits that may be stored: a leading declet that holds one digit is only given the room of one. */
  function Stored(d: seq<nat>): nat
    requires |d| >= 3
  {
    if d[|d| - 1] == 0 && d[|d| - 2] == 0 then |d| - 2 else |d|
  }

  /** Enough words for the declets, and enough units for their digits. */
  ghost predicate Unpackable(sour: seq<nat>, declets: nat, units: nat) {
    && 0 < declets < 16 && 10 * declets <= 32 * |sour| && (forall i :: 0 <= i < |sour| ==> sour[i] < 0x1_0000_0000)
    && Units(Stored(Decoded(Words(sour), declets))) <= units
  }

  /** k declets have been read, the next is at bit off of word i, and rest is what the words hold from there. */
  ghost predicate Reading(sour: seq<nat>, declets: nat, d: seq<nat>, k: nat, i: nat, off: nat) {
    && k <= declets && |d| == 3 * declets && 32 * i + off == 10 * k && off <= 32 && i < |sour|
    && d[3 * k..] == Decoded(Rest(sour, i, off), declets - k)
  }

  lemma ReadingBegins(sour: seq<nat>, declets: nat, units: nat)
    requires Unpackable(sour, declets, units)
    ensures Reading(sour, declets, Decoded(Words(sour), declets), 0, 0, 0) && AllDigits(Decoded(Words(sour), declets))
  {
    TwoFacts();
    DecodedDigits(Words(sour), declets);
    assert Rest(sour, 0, 0) == sour[0] + Words(sour[1..]) * WORD;
    hide Decoded;
  }

  lemma ReadingGoesOn(sour: seq<nat>, declets: nat, d: seq<nat>, k: nat, i: nat, off: nat, units: nat)
    requires Reading(sour, declets, d, k, i, off) && k < declets && Unpackable(sour, declets, units)
    ensures off < 32 && (off + 10 > 32 ==> i + 1 < |sour|)
    ensures var r := Rest(sour, i, off);
      d[3 * k..3 * k + 3] == Three(Decode(r % 1024)) && d[3 * (k + 1)..] == Decoded(r / 1024, declets - (k + 1))
  {
    hide Decoded, Rest, Decode, Three, Words, Stored;
    NotAtEdge(k, i, off, declets, |sour|);
    DecodedStep(Rest(sour, i, off), declets - k);
    NextThree(d, 3 * k);
  }

  /** Sixteen declets would be needed to end exactly at the end of a word. */
  lemma NotAtEdge(k: nat, i: nat, off: nat, declets: nat, words: nat)
    requires 32 * i + off == 10 * k && off <= 32 && k < declets < 16 && 10 * declets <= 32 * words && i < words
    ensures off < 32 && (off + 10 > 32 ==> i + 1 < words)
  {
  }

  lemma NextThree(d: seq<nat>, t: nat)
    requires t + 3 <= |d|
    ensures d[t..t + 3] == d[t..][..3] && d[t + 3..] == d[t..][3..]
  {
  }

  lemma LastDeclet(sour: seq<nat>, declets: nat, d: seq<nat>, k: nat, b: nat, units: nat)
    requires k < declets && |d| == 3 * declets && d[3 * k..3 * k + 3] == Three(b) && b < 1000
    requires Units(Stored(d)) <= units
    ensures Units(if k == declets - 1 && b < 10 then 3 * k + 1 else 3 * k + 3) <= units
    ensures k == declets - 1 && b < 10 ==> AllOf(d[3 * k + 1..], 0)
  {
    hide Three;
    var x, y, z := ThreeShape(b);
    assert d[3 * k + 1] == d[3 * k..3 * k + 3][1] == y && d[3 * k + 2] == d[3 * k..3 * k + 3][2] == x;
  }

  /** Expands the declets from the right into units. */
  method UnpackDeclets(sour: seq<nat>, declets: nat, lsu: array<nat>, ghost d: seq<nat>)
    returns (ghost j: nat, out: nat, cut: nat, uout: nat, last: nat)
    requires Unpackable(sour, declets, lsu.Length) && d == Decoded(Words(sour), declets)
    modifies lsu
    ensures 0 < j <= |d| && Units(j) <= lsu.Length && AllDigits(d) && AllOf(d[j..], 0)
    ensures Filled(lsu[..], d, j, out, cut, uout, last)
  {
    hide *;
    ReadingBegins(sour, declets, lsu.Length);
    NothingFilled(sour, declets, lsu[..], d);
    var i: nat, off: nat, k := 0, 0, 0;
    j, out, cut, uout, last := 0, 0, 0, 0, 0;
    while k < declets
      invariant 0 <= k <= declets && Reading(sour, declets, d, k, i, off) && i < |sour| && off <= 32 && 32 * i + off == 10 * k
      invariant Filled(lsu[..], d, j, out, cut, uout, last) && Units(j) <= lsu.Length && (k > 0 ==> j > 0)
      invariant if k < declets then j == 3 * k else j <= |d| && AllOf(d[j..], 0)
    {
      ReadingGoesOn(sour, declets, d, k, i, off, lsu.Length);
      var dpd, i', off' := ReadDeclet(sour, i, off);
      var b := DpdToBin(dpd);
      LastDeclet(sour, declets, d, k, b, lsu.Length);
      j, out, cut, uout, last := PutDeclet(lsu, d, j, b, k == declets - 1, out, cut, uout, last);
      i, off, k := i', off', k + 1;
      ReadingIs(sour, declets, d, k, i, off);
      if k == declets { AllDone(d, j); }
    }
  }

  lemma AllDone(d: seq<nat>, j: nat)
    ensures j == |d| ==> AllOf(d[j..], 0)
  {
  }

  lemma ReadingIs(sour: seq<nat>, declets: nat, d: seq<nat>, k: nat, i: nat, off: nat)
    requires k <= declets && |d| == 3 * declets && 32 * i + off == 10 * k && off <= 32 && i < |sour|
    requires d[3 * k..] == Decoded(Rest(sour, i, off), declets - k)
    ensures Reading(sour, declets, d, k, i, off)
  {
  }

  lemma NothingFilled(sour: seq<nat>, declets: nat, lsu: seq<nat>, d: seq<nat>)
    requires Unpackable(sour, declets, |lsu|) && d == Decoded(Words(sour), declets)
    ensures Filled(lsu, d, 0, 0, 0, 0, 0) && Units(0) <= |lsu| && 0 < declets && |d| == 3 * declets && |sour| > 0
    ensures Units(Stored(d)) <= |lsu| && forall i :: 0 <= i < |sour| ==> sour[i] < 0x1_0000_0000
  {
  }

  // ---- the number ----

  /** decDigitsFromDPD: the digits of the declets, without leading zeros; sign and exponent are left alone. */
  method DigitsFromDPD(dn: DecNumber, sour: seq<nat>, declets: nat)
    requires Unpackable(sour, declets, dn.lsu.Length)
    modifies dn`digits, dn.lsu
    ensures dn.Valid() && dn.Digits() == Trim(Decoded(Words(sour), declets))
  {
    hide *;
    ghost var d := Decoded(Words(sour), declets);
    ghost var j;
    var out, cut, uout, last;
    j, out, cut, uout, last := UnpackDeclets(sour, declets, dn.lsu, d);
    last := StoreLast(dn.lsu, d, j, out, cut, uout, last);
    SomeUnit(last, j, dn.lsu.Length);
    CountFits(dn.lsu[..], d, j, last);
    CountIs(dn.lsu[..], last);
    dn.digits := last * 2 + 1;
    if dn.lsu[last] >= 10 {
      dn.digits := dn.digits + 1;
    }
    CountedNumber(dn, d);
  }

  lemma SomeUnit(last: nat, j: nat, units: nat)
    requires last < Units(j) <= units
    ensures last < units
  {
  }

  function Count(lsu: seq<nat>, last: nat): nat
    requires last < |lsu|
  {
    last * DIGITS_PER_UNIT + (if lsu[last] >= 10 then 2 else 1)
  }

  lemma CountIs(lsu: seq<nat>, last: nat)
    requires last < |lsu|
    ensures Count(lsu, last) == last * 2 + (if lsu[last] >= 10 then 2 else 1)
  {
  }

  /** The count ends at the most significant digit that is not zero. */
  lemma CountFits(lsu: seq<nat>, d: seq<nat>, j: nat, last: nat)
    requires 0 < j <= |d| && Units(j) <= |lsu| && AllDigits(d) && AllOf(d[j..], 0) && last < Units(j)
    requires last == 0 || lsu[last] != 0
    requires forall i :: 0 <= i < Units(j) ==> lsu[i] == DigitAt(d, 2 * i) + 10 * DigitAt(d, 2 * i + 1) && (i > last ==> lsu[i] == 0)
    ensures var n := Count(lsu, last);
      && 0 < n <= |d| && n <= 2 * |lsu| && DigitsOf(lsu, n) == d[..n] && AllOf(d[n..], 0) && (n > 1 ==> d[n - 1] != 0)
      && (forall i :: 0 <= i < Units(n) ==> lsu[i] <= 99) && (n % 2 == 1 ==> lsu[n / 2] <= 9)
  {
    var n := Count(lsu, last);
    forall k | 0 <= k < |d|
      ensures k < n ==> k / 2 < |lsu| && UnitDigit(lsu, k) == d[k]
      ensures k >= n ==> d[k] == 0
    {
      CountedDigit(lsu, d, j, last, k);
    }
    TopUnit(lsu, d, j, last);
    hide DigitAt, Count, UnitDigit, Units;
    SameItems(DigitsOf(lsu, n), d[..n]);
  }

  lemma SameItems(a: seq<nat>, b: seq<nat>)
    requires |a| == |b| && forall i :: 0 <= i < |a| ==> a[i] == b[i]
    ensures a == b
  {
  }

  /** A digit below the count is the unit's; one above it is zero. */
  lemma CountedDigit(lsu: seq<nat>, d: seq<nat>, j: nat, last: nat, k: nat)
    requires 0 < j <= |d| && Units(j) <= |lsu| && AllDigits(d) && AllOf(d[j..], 0) && last < Units(j) && k < |d|
    requires forall i :: 0 <= i < Units(j) ==> lsu[i] == DigitAt(d, 2 * i) + 10 * DigitAt(d, 2 * i + 1) && (i > last ==> lsu[i] == 0)
    ensures k < Count(lsu, last) ==> k / 2 < |lsu| && UnitDigit(lsu, k) == d[k]
    ensures k >= Count(lsu, last) ==> d[k] == 0
  {
    var i := k / 2;
    if i < Units(j) {
      TwoDigits(DigitAt(d, 2 * i), DigitAt(d, 2 * i + 1));
      assert lsu[i] == DigitAt(d, 2 * i) + 10 * DigitAt(d, 2 * i + 1);
      assert d[k] == if k % 2 == 0 then DigitAt(d, 2 * i) else DigitAt(d, 2 * i + 1);
    } else {
      assert d[k] == d[j..][k - j];
    }
  }

  lemma TwoDigits(a: nat, b: nat)
    requires a <= 9 && b <= 9
    ensures (a + 10 * b) % 10 == a && (a + 10 * b) / 10 == b && a + 10 * b <= 99 && (a + 10 * b >= 10 <==> b > 0)
  {
  }

  /** The units counted hold two digits each, and the last of them just one if the count is odd. */
  lemma TopUnit(lsu: seq<nat>, d: seq<nat>, j: nat, last: nat)
    requires 0 < j <= |d| && Units(j) <= |lsu| && AllDigits(d) && last < Units(j) && (last == 0 || lsu[last] != 0)
    requires forall i :: 0 <= i < Units(j) ==> lsu[i] == DigitAt(d, 2 * i) + 10 * DigitAt(d, 2 * i + 1) && (i > last ==> lsu[i] == 0)
    ensures var n := Count(lsu, last);
      && 0 < n <= |d| && n <= 2 * |lsu| && (n > 1 ==> d[n - 1] != 0)
      && (forall i :: 0 <= i < Units(n) ==> lsu[i] <= 99) && (n % 2 == 1 ==> lsu[n / 2] <= 9)
  {
    var n := Count(lsu, last);
    forall i | 0 <= i < Units(j)
      ensures lsu[i] <= 99
    {
      TwoDigits(DigitAt(d, 2 * i), DigitAt(d, 2 * i + 1));
    }
    assert lsu[last] == DigitAt(d, 2 * last) + 10 * DigitAt(d, 2 * last + 1);
    TwoDigits(DigitAt(d, 2 * last), DigitAt(d, 2 * last + 1));
    assert Units(n) == last + 1;
  }

  lemma CountedNumber(dn: DecNumber, d: seq<nat>)
    requires 0 < dn.digits <= |d| && dn.digits <= 2 * dn.lsu.Length && DigitsOf(dn.lsu[..], dn.digits) == d[..dn.digits]
    requires AllDigits(d) && AllOf(d[dn.digits..], 0) && (dn.digits > 1 ==> d[dn.digits - 1] != 0)
    requires forall i :: 0 <= i < Units(dn.digits) ==> dn.lsu[..][i] <= 99
    requires dn.digits % 2 == 1 ==> dn.lsu[..][dn.digits / 2] <= 9
    ensures dn.Valid() && dn.Digits() == Trim(d)
  {
    TrimLength(d, dn.digits);
    assert forall i :: 0 <= i < Units(dn.digits) ==> dn.lsu[i] == dn.lsu[..][i];
  }

  // ---- the round trip ----

  lemma ThreeOfBin(d: seq<nat>)
    requires AllDigits(d)
    ensures Three(Bin(d)) == [DigitAt(d, 0), DigitAt(d, 1), DigitAt(d, 2)]
  {
    var a, b, c := DigitAt(d, 0), DigitAt(d, 1), DigitAt(d, 2);
    assert a < 10 && b < 10 && c < 10 && Bin(d) == 100 * c + 10 * b + a;
    hide *;
    BinBound(d);
    ThreeParts(Bin(d));
    DigitsOfNumber(c, b, a);
  }

  /** Unpacking at least as many declets as were packed gives the digits back, with zeros in front. */
  lemma {:induction false} DecodedDeclets(d: seq<nat>, n: nat)
    requires AllDigits(d) && |d| <= 3 * n
    ensures var e := Decoded(Declets(d), n);
      e[..|d|] == d && AllOf(e[|d|..], 0)
    decreases n
  {
    hide *;
    if n > 0 {
      ThreeOfBin(d);
      BeyondDigits(d);
      DecodedDeclets(Beyond(d), n - 1);
      DecodedStep(Declets(d), n);
      DecletsParts(d);
      JoinThree(d, Decoded(Declets(d), n));
    } else {
      NoneDecoded(Declets(d));
    }
  }

  lemma BeyondDigits(d: seq<nat>)
    requires AllDigits(d)
    ensures AllDigits(Beyond(d)) && |Beyond(d)| == if |d| <= 3 then 0 else |d| - 3
  {
  }

  lemma NoneDecoded(v: nat)
    ensures Decoded(v, 0) == [] && AllOf([], 0)
  {
  }

  lemma DecletsParts(d: seq<nat>)
    requires AllDigits(d)
    ensures Decode(Declets(d) % 1024) == Bin(d) && Declets(d) / 1024 == Declets(Beyond(d))
  {
    hide Encode, Decode, Bin, Beyond;
    BinBound(d);
    DecodeEncode(Bin(d));
    EncodeZero();
    if d == [] {
      NoDigits();
    } else {
      DecletsSplit(d);
      PartsOf(Encode(Bin(d)), Declets(Beyond(d)));
    }
  }

  lemma NoDigits()
    ensures Bin([]) == 0 && Declets([]) == 0 && Beyond([]) == []
  {
  }

  lemma DecletsSplit(d: seq<nat>)
    requires d != []
    ensures Declets(d) == Encode(Bin(d)) + 1024 * Declets(Beyond(d))
  {
    hide Encode, Bin;
  }

  lemma JoinThree(d: seq<nat>, e: seq<nat>)
    requires |e| >= 3 && |d| <= |e| && e[..3] == [DigitAt(d, 0), DigitAt(d, 1), DigitAt(d, 2)]
    requires |Beyond(d)| <= |e| - 3 && e[3..][..|Beyond(d)|] == Beyond(d) && AllOf(e[3..][|Beyond(d)|..], 0)
    ensures e[..|d|] == d && AllOf(e[|d|..], 0)
  {
    forall i | 0 <= i < |e|
      ensures e[i] == DigitAt(d, i)
    {
      if i < 3 {
        assert e[i] == e[..3][i];
      } else if i - 3 < |Beyond(d)| {
        assert e[i] == e[3..][..|Beyond(d)|][i - 3];
      } else {
        assert e[i] == e[3..][|Beyond(d)|..][i - 3 - |Beyond(d)|];
      }
    }
  }

  lemma OnlyZeros(r: seq<nat>, z: seq<nat>)
    requires r != [] && AllOf(r, 0) && AllOf(z, 0)
    ensures Trim(r + z) == [0]
  {
    hide Trim;
    var e := r + z;
    TrimLength(e, 1);
    assert e[..1] == [0];
  }

  lemma RaisedTrimmed(d: seq<nat>, shift: nat)
    requires Trimmed(d) && d != [0]
    ensures Trimmed(Raised(d, shift))
  {
  }

  /** Packing a number with n zeros added and unpacking again gives the number times 10^n: its digits
      with n zeros below them, or a single zero. */
  lemma UnpackedPacked(d: seq<nat>, shift: nat, n: nat)
    requires Trimmed(d) && |d| + shift <= 3 * n
    ensures Trim(Decoded(Declets(Raised(d, shift)), n)) == if d == [0] then [0] else Raised(d, shift)
  {
    hide Decoded, Declets, Dec, Trim;
    var r := Raised(d, shift);
    var e := Decoded(Declets(r), n);
    DecodedDeclets(r, n);
    assert e == r + e[|r|..];
    if d == [0] {
      OnlyZeros(r, e[|r|..]);
    } else {
      RaisedTrimmed(d, shift);
      TrimPadded(r, e[|r|..]);
    }
  }

  /** The same of the methods: one number into words, and the words into another. */
  method PackAndUnpack(a: DecNumber, shift: nat, targ: array<nat>, declets: nat, b: DecNumber)
    requires a.Valid() && a.lsu != targ && b != a && b.lsu != a.lsu && b.lsu != targ
    requires WordsFor(a.digits + shift, targ.Length) && forall i :: 0 <= i < targ.Length ==> targ[i] == 0
    requires a.digits + shift <= 3 * declets < 48 && 10 * declets <= 32 * targ.Length && 3 * declets <= 2 * b.lsu.Length
    modifies targ, b`digits, b.lsu
    ensures b.Valid() && b.Digits() == if a.Digits() == [0] then [0] else Raised(a.Digits(), shift)
  {
    ghost var d := a.Digits();
    DigitsToDPD(a, targ, shift);
    assert Units(3 * declets) <= b.lsu.Length;
    hide Declets, Decoded, Words, Raised;
    DigitsFromDPD(b, targ[..], declets);
    UnpackedPacked(d, shift, declets);
  }
}
