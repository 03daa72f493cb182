/** Adding four decimal digits at once: the by-fours loop of decFloatAdd on a little-endian machine. */
module Swar {
  import opened Digits

  // ---- words and bytes ----

  /** Four bytes in memory order; the first is the least significant byte of the word. */
  function Pack(b0: bv32, b1: bv32, b2: bv32, b3: bv32): bv32 {
    b0 | (b1 << 8) | (b2 << 16) | (b3 << 24)
  }

  function Plus(x: bv32, y: bv32): bv32 {
    x + y
  }

  const BIAS: bv32 := 0x76767676

  /** The three manual carries between digits: out of byte 3 into byte 2, and so on. */
  function Carry3(w: bv32): bv32 {
    w + ((w & 0x80000000) >> 15)
  }

  function Carry2(w: bv32): bv32 {
    w + ((w & 0x00800000) >> 15)
  }

  function Carry1(w: bv32): bv32 {
    w + ((w & 0x00008000) >> 15)
  }

  /** Takes the bias back out of the digits that did not carry. */
  function Unbias(w: bv32): bv32 {
    w - ((w & 0x60606060) >> 4)
  }

  function Nibbles(w: bv32): bv32 {
    w & 0x0f0f0f0f
  }

  function CarryOut(w: bv32): bv32 {
    (w & 0x80) << 17
  }

  /** The whole word addition, before the digits are cleared of debris. */
  function WordSum(carry: bv32, us: bv32, ut: bv32): bv32 {
    Unbias(Carry1(Carry2(Carry3(Plus(Plus(Plus(carry, us), ut), BIAS)))))
  }

  // ---- what each operation does to the bytes ----

  predicate Digit9(x: bv32) {
    x <= 9
  }

  /** The sum of two digits, and perhaps a carry. */
  predicate Sum18(x: bv32) {
    x <= 18
  }

  predicate Sum19(x: bv32) {
    x <= 19
  }

  function Top(x: bv32): bv32 {
    x >> 7
  }

  function Biased(s: bv32): bv32 {
    s + 0x76
  }

  function ByteUnbias(x: bv32): bv32 {
    x - ((x & 0x60) >> 4)
  }

  function Low(x: bv32): bv32 {
    x & 0xf
  }

  /** The decimal carry and digit of a sum of two digits and a carry. */
  function Over(s: bv32): bv32 {
    if s >= 10 then 1 else 0
  }

  function Rest(s: bv32): bv32 {
    if s >= 10 then s - 10 else s
  }

  lemma AddCarryIn(b0: bv32, b1: bv32, b2: bv32, b3: bv32, c: bv32)
    requires Digit9(b0) && Digit9(b1) && Digit9(b2) && Digit9(b3) && c <= 1
    ensures Plus(c << 24, Pack(b0, b1, b2, b3)) == Pack(b0, b1, b2, Plus(b3, c)) && Plus(b3, c) <= 10
  {
  }

  lemma AddBytes(a0: bv32, a1: bv32, a2: bv32, a3: bv32, b0: bv32, b1: bv32, b2: bv32, b3: bv32)
    requires Digit9(a0) && Digit9(a1) && Digit9(a2) && Digit9(a3)
    requires Digit9(b0) && Digit9(b1) && Digit9(b2) && b3 <= 10
    ensures Plus(Pack(b0, b1, b2, b3), Pack(a0, a1, a2, a3)) == Pack(Plus(b0, a0), Plus(b1, a1), Plus(b2, a2), Plus(b3, a3))
    ensures Sum18(Plus(b0, a0)) && Sum18(Plus(b1, a1)) && Sum18(Plus(b2, a2)) && Sum19(Plus(b3, a3))
  {
  }

  lemma AddBias(u0: bv32, u1: bv32, u2: bv32, u3: bv32)
    requires Sum18(u0) && Sum18(u1) && Sum18(u2) && Sum19(u3)
    ensures Plus(Pack(u0, u1, u2, u3), BIAS) == Pack(Biased(u0), Biased(u1), Biased(u2), Biased(u3))
  {
  }

  /** A carry into a byte keeps it a sum of two digits and a carry. */
  lemma CarryByte(u: bv32, s: bv32)
    requires Sum18(u) && Sum19(s)
    ensures Plus(Biased(u), Top(Biased(s))) == Biased(Plus(u, Over(s))) && Sum19(Plus(u, Over(s))) && Sum19(u)
  {
  }

  lemma CarryFrom3(s0: bv32, s1: bv32, s2: bv32, s3: bv32)
    requires Sum19(s0) && Sum19(s1) && Sum19(s2) && Sum19(s3)
    ensures Carry3(Pack(Biased(s0), Biased(s1), Biased(s2), Biased(s3))) ==
      Pack(Biased(s0), Biased(s1), Plus(Biased(s2), Top(Biased(s3))), Biased(s3))
  {
  }

  lemma CarryFrom2(s0: bv32, s1: bv32, s2: bv32, s3: bv32)
    requires Sum19(s0) && Sum19(s1) && Sum19(s2) && Sum19(s3)
    ensures Carry2(Pack(Biased(s0), Biased(s1), Biased(s2), Biased(s3))) ==
      Pack(Biased(s0), Plus(Biased(s1), Top(Biased(s2))), Biased(s2), Biased(s3))
  {
  }

  lemma CarryFrom1(s0: bv32, s1: bv32, s2: bv32, s3: bv32)
    requires Sum19(s0) && Sum19(s1) && Sum19(s2) && Sum19(s3)
    ensures Carry1(Pack(Biased(s0), Biased(s1), Biased(s2), Biased(s3))) ==
      Pack(Plus(Biased(s0), Top(Biased(s1))), Biased(s1), Biased(s2), Biased(s3))
  {
  }

  /** Any byte between 0x70 and 0x8f. */
  function Around(s: bv32): bv32 {
    0x70 + (s & 0x1f)
  }

  lemma MiddleBits(s0: bv32, s1: bv32, s2: bv32, s3: bv32)
    ensures var x0, x1, x2, x3 := Around(s0), Around(s1), Around(s2), Around(s3);
      Pack(x0, x1, x2, x3) - ((Pack(x0, x1, x2, x3) & 0x60606060) >> 4) ==
      Pack(x0 - ((x0 & 0x60) >> 4), x1 - ((x1 & 0x60) >> 4), x2 - ((x2 & 0x60) >> 4), x3 - ((x3 & 0x60) >> 4))
  {
  }

  lemma UnbiasBytes(s0: bv32, s1: bv32, s2: bv32, s3: bv32)
    ensures var x0, x1, x2, x3 := Around(s0), Around(s1), Around(s2), Around(s3);
      Unbias(Pack(x0, x1, x2, x3)) == Pack(ByteUnbias(x0), ByteUnbias(x1), ByteUnbias(x2), ByteUnbias(x3))
  {
    MiddleBits(s0, s1, s2, s3);
  }

  function Plus6(s: bv32): bv32 {
    s + 6
  }

  /** A byte whose bias has been dealt with. */
  predicate PlainByte(x: bv32) {
    x <= 0x8f
  }

  /** A biased byte keeps the decimal carry in its top bit and, unbiased, the digit in its low four. */
  lemma ByteResult(s: bv32)
    requires Sum19(s)
    ensures var x := ByteUnbias(Biased(s));
      Biased(s) == Around(Plus6(s)) && PlainByte(x) && Low(x) == Rest(s) && Top(x) == Over(s)
  {
  }

  lemma ClearDebris(x0: bv32, x1: bv32, x2: bv32, x3: bv32)
    requires PlainByte(x0) && PlainByte(x1) && PlainByte(x2) && PlainByte(x3)
    ensures Nibbles(Pack(x0, x1, x2, x3)) == Pack(Low(x0), Low(x1), Low(x2), Low(x3))
    ensures CarryOut(Pack(x0, x1, x2, x3)) == Top(x0) << 24
  {
  }

  /** The digit sums, with the decimal carries rippled from the last byte to the first. */
  datatype Ripple = Ripple(s0: bv32, s1: bv32, s2: bv32, s3: bv32)

  function Rippled(a0: bv32, a1: bv32, a2: bv32, a3: bv32, b0: bv32, b1: bv32, b2: bv32, b3: bv32, c: bv32): Ripple {
    var s3 := Plus(Plus(b3, c), a3);
    var s2 := Plus(Plus(b2, a2), Over(s3));
    var s1 := Plus(Plus(b1, a1), Over(s2));
    Ripple(Plus(Plus(b0, a0), Over(s1)), s1, s2, s3)
  }

  /** The word operations add four digits with their carries. */
  lemma WordAdds(a0: bv32, a1: bv32, a2: bv32, a3: bv32, b0: bv32, b1: bv32, b2: bv32, b3: bv32, c: bv32)
    requires Digit9(a0) && Digit9(a1) && Digit9(a2) && Digit9(a3)
    requires Digit9(b0) && Digit9(b1) && Digit9(b2) && Digit9(b3) && c <= 1
    ensures var w := WordSum(c << 24, Pack(b0, b1, b2, b3), Pack(a0, a1, a2, a3));
      var r := Rippled(a0, a1, a2, a3, b0, b1, b2, b3, c);
      && Nibbles(w) == Pack(Rest(r.s0), Rest(r.s1), Rest(r.s2), Rest(r.s3))
      && CarryOut(w) == Over(r.s0) << 24
  {
    hide Pack, Plus, Carry3, Carry2, Carry1, Unbias, Nibbles, CarryOut, Digit9, Sum18, Sum19, Top, Biased, ByteUnbias,
      PlainByte, Low, Over, Rest, Around, Plus6;
    AddCarryIn(b0, b1, b2, b3, c);
    AddBytes(a0, a1, a2, a3, b0, b1, b2, Plus(b3, c));
    var u0, u1, u2, s3 := Plus(b0, a0), Plus(b1, a1), Plus(b2, a2), Plus(Plus(b3, c), a3);
    AddBias(u0, u1, u2, s3);
    var s2 := Plus(u2, Over(s3));
    CarryByte(u2, s3);
    var s1 := Plus(u1, Over(s2));
    CarryByte(u1, s2);
    var s0 := Plus(u0, Over(s1));
    CarryByte(u0, s1);
    CarryFrom3(u0, u1, u2, s3);
    CarryFrom2(u0, u1, s2, s3);
    CarryFrom1(u0, s1, s2, s3);
    ByteResult(s0);
    ByteResult(s1);
    ByteResult(s2);
    ByteResult(s3);
    UnbiasBytes(Plus6(s0), Plus6(s1), Plus6(s2), Plus6(s3));
    ClearDebris(ByteUnbias(Biased(s0)), ByteUnbias(Biased(s1)), ByteUnbias(Biased(s2)), ByteUnbias(Biased(s3)));
  }

  // ---- from bytes to digits ----

  /** A digit as a byte, and back. */
  function Bits(d: nat): (b: bv32)
    requires d <= 9
    ensures b <= 9
  {
    if d == 0 then 0 else if d == 1 then 1 else if d == 2 then 2 else if d == 3 then 3 else if d == 4 then 4
    else if d == 5 then 5 else if d == 6 then 6 else if d == 7 then 7 else if d == 8 then 8 else 9
  }

  function Digit(b: bv32): (d: nat)
    ensures d <= 9
  {
    if b == 0 then 0 else if b == 1 then 1 else if b == 2 then 2 else if b == 3 then 3 else if b == 4 then 4
    else if b == 5 then 5 else if b == 6 then 6 else if b == 7 then 7 else if b == 8 then 8 else 9
  }

  /** The byte sums mean what they should. */
  lemma DigitSum(a: nat, b: nat, c: nat)
    requires a <= 9 && b <= 9 && c <= 1
    ensures var s := Plus(Plus(Bits(b), Bits(a)), Bits(c));
      && Digit(Over(s)) <= 1 && Over(s) == Bits(Digit(Over(s))) && Rest(s) == Bits(Digit(Rest(s)))
      && a + b + c == Digit(Rest(s)) + 10 * Digit(Over(s))
  {
  }

  lemma PlusSwaps(x: bv32, y: bv32, z: bv32)
    requires x <= 9 && y <= 9 && z <= 9
    ensures Plus(Plus(x, y), z) == Plus(Plus(x, z), y)
  {
  }

  /** Four digits as a number. */
  function Four(d0: nat, d1: nat, d2: nat, d3: nat): nat {
    1000 * d0 + 100 * d1 + 10 * d2 + d3
  }

  lemma DecFour(s: seq<nat>)
    requires |s| == 4
    ensures Dec(s) == Four(s[0], s[1], s[2], s[3])
  {
    assert s == [s[0]] + [s[1]] + [s[2]] + [s[3]];
    DecOne(s[0]);
    DecSnoc([s[0]], s[1]);
    DecSnoc([s[0]] + [s[1]], s[2]);
    DecSnoc([s[0]] + [s[1]] + [s[2]], s[3]);
  }

  lemma FourSum(a0: nat, a1: nat, a2: nat, a3: nat, b0: nat, b1: nat, b2: nat, b3: nat, c: nat,
                d0: nat, d1: nat, d2: nat, d3: nat, k0: nat, k1: nat, k2: nat, k3: nat)
    requires a3 + b3 + c == d3 + 10 * k3 && a2 + b2 + k3 == d2 + 10 * k2
    requires a1 + b1 + k2 == d1 + 10 * k1 && a0 + b0 + k1 == d0 + 10 * k0
    ensures Four(d0, d1, d2, d3) + 10000 * k0 == Four(a0, a1, a2, a3) + Four(b0, b1, b2, b3) + c
  {
  }

  /** The rippled bytes are the digits of the sum. */
  lemma RippledDigits(a0: nat, a1: nat, a2: nat, a3: nat, b0: nat, b1: nat, b2: nat, b3: nat, c: nat)
    returns (d0: nat, d1: nat, d2: nat, d3: nat, k: nat)
    requires a0 <= 9 && a1 <= 9 && a2 <= 9 && a3 <= 9 && b0 <= 9 && b1 <= 9 && b2 <= 9 && b3 <= 9 && c <= 1
    ensures d0 <= 9 && d1 <= 9 && d2 <= 9 && d3 <= 9 && k <= 1
    ensures Four(d0, d1, d2, d3) + 10000 * k == Four(a0, a1, a2, a3) + Four(b0, b1, b2, b3) + c
    ensures var r := Rippled(Bits(a0), Bits(a1), Bits(a2), Bits(a3), Bits(b0), Bits(b1), Bits(b2), Bits(b3), Bits(c));
      && Rest(r.s0) == Bits(d0) && Rest(r.s1) == Bits(d1) && Rest(r.s2) == Bits(d2) && Rest(r.s3) == Bits(d3)
      && Over(r.s0) == Bits(k)
  {
    var r := Rippled(Bits(a0), Bits(a1), Bits(a2), Bits(a3), Bits(b0), Bits(b1), Bits(b2), Bits(b3), Bits(c));
    hide Bits, Digit, Plus, Over, Rest, Four;
    PlusSwaps(Bits(b3), Bits(c), Bits(a3));
    DigitSum(a3, b3, c);
    var k3 := Digit(Over(r.s3));
    DigitSum(a2, b2, k3);
    var k2 := Digit(Over(r.s2));
    DigitSum(a1, b1, k2);
    var k1 := Digit(Over(r.s1));
    DigitSum(a0, b0, k1);
    d0, d1, d2, d3, k := Digit(Rest(r.s0)), Digit(Rest(r.s1)), Digit(Rest(r.s2)), Digit(Rest(r.s3)), Digit(Over(r.s0));
    FourSum(a0, a1, a2, a3, b0, b1, b2, b3, c, d0, d1, d2, d3, k, k1, k2, k3);
  }

  /** Byte i of a word, as a digit. */
  function ByteDigit(w: bv32, i: nat): (d: nat)
    requires i < 4
    ensures d <= 9
  {
    Digit(ByteOf(w, i))
  }

  function ByteOf(w: bv32, i: nat): bv32
    requires i < 4
  {
    if i == 0 then w & 0xff else if i == 1 then (w >> 8) & 0xff else if i == 2 then (w >> 16) & 0xff else w >> 24
  }

  lemma PackedBytes(b0: bv32, b1: bv32, b2: bv32, b3: bv32)
    requires b0 <= 9 && b1 <= 9 && b2 <= 9 && b3 <= 9
    ensures var w := Pack(b0, b1, b2, b3);
      ByteOf(w, 0) == b0 && ByteOf(w, 1) == b1 && ByteOf(w, 2) == b2 && ByteOf(w, 3) == b3
  {
  }

  lemma BitsDigit(d: nat)
    requires d <= 9
    ensures Digit(Bits(d)) == d
  {
  }

  lemma UnpackDigits(d0: nat, d1: nat, d2: nat, d3: nat)
    requires d0 <= 9 && d1 <= 9 && d2 <= 9 && d3 <= 9
    ensures var w := Pack(Bits(d0), Bits(d1), Bits(d2), Bits(d3));
      ByteDigit(w, 0) == d0 && ByteDigit(w, 1) == d1 && ByteDigit(w, 2) == d2 && ByteDigit(w, 3) == d3
  {
    hide Pack, Bits, Digit, ByteOf;
    PackedBytes(Bits(d0), Bits(d1), Bits(d2), Bits(d3));
    BitsDigit(d0);
    BitsDigit(d1);
    BitsDigit(d2);
    BitsDigit(d3);
  }

  /** Nothing to add only when there is neither a digit nor a carry. */
  lemma NothingToAdd(b0: bv32, b1: bv32, b2: bv32, b3: bv32, c: bv32)
    requires b0 <= 9 && b1 <= 9 && b2 <= 9 && b3 <= 9 && c <= 1
    ensures Plus(c << 24, Pack(b0, b1, b2, b3)) == 0 ==> c == 0 && b0 == 0 && b1 == 0 && b2 == 0 && b3 == 0
  {
  }

  lemma ZeroDigit(d: nat)
    requires d <= 9 && Bits(d) == 0
    ensures d == 0
  {
  }

  lemma CarryWord(c: nat)
    requires c <= 1
    ensures Bits(c) <= 1 && Bits(c) << 24 == if c == 0 then 0 else 0x0100_0000
  {
  }

  /** Adds the word us to the word ut with a carry word; the sum's word and the carry word out. */
  method AddWords(us: bv32, ut: bv32, carry: bv32, ghost b: seq<nat>, ghost a: seq<nat>, ghost c: nat)
    returns (sum: bv32, carry': bv32, ghost d: seq<nat>, ghost k: nat)
    requires |a| == |b| == 4 && AllDigits(a) && AllDigits(b) && c <= 1 && carry == Bits(c) << 24
    requires us == Pack(Bits(b[0]), Bits(b[1]), Bits(b[2]), Bits(b[3])) && ut == Pack(Bits(a[0]), Bits(a[1]), Bits(a[2]), Bits(a[3]))
    ensures |d| == 4 && AllDigits(d) && k <= 1 && carry' == Bits(k) << 24
    ensures sum == Pack(Bits(d[0]), Bits(d[1]), Bits(d[2]), Bits(d[3]))
    ensures Dec(d) + 10000 * k == Dec(a) + Dec(b) + c
  {
    hide Pack, Bits, Plus, Unbias, Carry1, Carry2, Carry3, Nibbles, CarryOut, Over, Rest, Digit, Four, Dec;
    CarryWord(c);
    ghost var d0, d1, d2, d3;
    d0, d1, d2, d3, k := RippledDigits(a[0], a[1], a[2], a[3], b[0], b[1], b[2], b[3], c);
    d := [d0, d1, d2, d3];
    DecFour(a);
    DecFour(b);
    DecFour(d);
    var w := Unbias(Carry1(Carry2(Carry3(Plus(Plus(Plus(carry, us), ut), BIAS)))));
    assert Digit9(Bits(a[0])) && Digit9(Bits(a[1])) && Digit9(Bits(a[2])) && Digit9(Bits(a[3]));
    assert Digit9(Bits(b[0])) && Digit9(Bits(b[1])) && Digit9(Bits(b[2])) && Digit9(Bits(b[3]));
    WordAdds(Bits(a[0]), Bits(a[1]), Bits(a[2]), Bits(a[3]), Bits(b[0]), Bits(b[1]), Bits(b[2]), Bits(b[3]), Bits(c));
    sum, carry' := Nibbles(w), CarryOut(w);
  }

  /** The word at an address. */
  function WordAt(buf: array<nat>, i: nat): bv32
    requires i + 4 <= buf.Length && AllDigits(buf[i..i + 4])
    reads buf
  {
    assert forall j :: i <= j < i + 4 ==> buf[j] == buf[i..i + 4][j - i];
    Pack(Bits(buf[i]), Bits(buf[i + 1]), Bits(buf[i + 2]), Bits(buf[i + 3]))
  }

  /** Stores a word byte by byte. */
  method StoreWord(acc: array<nat>, ut: nat, w: bv32, ghost d: seq<nat>)
    requires ut + 4 <= acc.Length && |d| == 4 && AllDigits(d) && w == Pack(Bits(d[0]), Bits(d[1]), Bits(d[2]), Bits(d[3]))
    modifies acc
    ensures acc[ut..ut + 4] == d
    ensures forall i :: 0 <= i < acc.Length && !(ut <= i < ut + 4) ==> acc[i] == old(acc[i])
  {
    UnpackDigits(d[0], d[1], d[2], d[3]);
    acc[ut], acc[ut + 1], acc[ut + 2], acc[ut + 3] := ByteDigit(w, 0), ByteDigit(w, 1), ByteDigit(w, 2), ByteDigit(w, 3);
    assert acc[ut..ut + 4] == [acc[ut], acc[ut + 1], acc[ut + 2], acc[ut + 3]];
  }

  /** Adds the four digits at us to the four at ut, in one word; k is the carry in, k' the carry out. */
  method AddWord(acc: array<nat>, ut: nat, buf: array<nat>, us: nat, carry: bv32, ghost k: nat) returns (carry': bv32, ghost k': nat)
    requires ut + 4 <= acc.Length && us + 4 <= buf.Length && acc != buf && k <= 1 && carry == Bits(k) << 24
    requires AllDigits(acc[ut..ut + 4]) && AllDigits(buf[us..us + 4])
    modifies acc
    ensures k' <= 1 && carry' == Bits(k') << 24 && AllDigits(acc[ut..ut + 4])
    ensures Dec(acc[ut..ut + 4]) + 10000 * k' == old(Dec(acc[ut..ut + 4])) + Dec(buf[us..us + 4]) + k
    ensures forall i :: 0 <= i < acc.Length && !(ut <= i < ut + 4) ==> acc[i] == old(acc[i])
  {
    ghost var a, b := acc[ut..ut + 4], buf[us..us + 4];
    var u := WordAt(buf, us);
    assert u == Pack(Bits(b[0]), Bits(b[1]), Bits(b[2]), Bits(b[3]));
    if Plus(carry, u) == 0 {
      NoAddend(b, k);
      return 0, 0;
    }
    var t := WordAt(acc, ut);
    assert t == Pack(Bits(a[0]), Bits(a[1]), Bits(a[2]), Bits(a[3]));
    hide Pack, Bits, Plus, Dec, ByteDigit;
    var sum;
    ghost var d;
    sum, carry', d, k' := AddWords(u, t, carry, b, a, k);
    StoreWord(acc, ut, sum, d);
  }

  lemma NoAddend(b: seq<nat>, k: nat)
    requires |b| == 4 && AllDigits(b) && k <= 1
    requires Plus(Bits(k) << 24, Pack(Bits(b[0]), Bits(b[1]), Bits(b[2]), Bits(b[3]))) == 0
    ensures k == 0 && Dec(b) == 0 && Bits(0) << 24 == 0
  {
    hide Dec, Bits, Plus, Pack;
    CarryWord(k);
    CarryWord(0);
    NothingToAdd(Bits(b[0]), Bits(b[1]), Bits(b[2]), Bits(b[3]), Bits(k));
    ZeroDigit(b[0]);
    ZeroDigit(b[1]);
    ZeroDigit(b[2]);
    ZeroDigit(b[3]);
    ZeroDigit(k);
    DecZeros(b);
  }
}
