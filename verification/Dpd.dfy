/** Densely packed decimal: three digits in ten bits (IEEE 754-2019, section 3.5.2). */
module Dpd {

  /** The ten bits p to y of the standard's tables: ph is pq, pl is r, sh is st, sl is u, then v, wx and y. */
  datatype Code = Code(ph: nat, pl: nat, sh: nat, sl: nat, v: nat, wx: nat, y: nat) {
    predicate Valid() {
      ph < 4 && pl < 2 && sh < 4 && sl < 2 && v < 2 && wx < 4 && y < 2
    }

    function Bits(): nat {
      256 * ph + 128 * pl + 32 * sh + 16 * sl + 8 * v + 2 * wx + y
    }
  }

  /** The fields of ten bits, by shifts and masks. */
  function SplitBits(b: nat): Code {
    Code(b / 2 / 4 / 2 / 2 / 4 / 2, b / 2 / 4 / 2 / 2 / 4 % 2, b / 2 / 4 / 2 / 2 % 4, b / 2 / 4 / 2 % 2, b / 2 / 4 % 2, b / 2 % 4, b % 2)
  }

  lemma BitsSplit(b: nat)
    requires b < 1024
    ensures SplitBits(b).Valid() && SplitBits(b).Bits() == b
  {
    var b1 := b / 2;
    var b2 := b1 / 4;
    var b3 := b2 / 2;
    var b4 := b3 / 2;
    var b5 := b4 / 4;
    assert b == 2 * b1 + b % 2 && b1 == 4 * b2 + b1 % 4 && b2 == 2 * b3 + b2 % 2;
    assert b3 == 2 * b4 + b3 % 2 && b4 == 4 * b5 + b4 % 4 && b5 == 2 * (b5 / 2) + b5 % 2;
  }

  /** The fields of ten bits, by what they add up to. */
  ghost function CodeOf(b: nat): Code {
    if b < 1024 then
      BitsSplit(b);
      var k: Code :| k.Valid() && k.Bits() == b;
      k
    else Code(0, 0, 0, 0, 0, 0, 0)
  }

  /** No other fields have the same bits. */
  lemma CodeUnique(k: Code, k': Code)
    requires k.Valid() && k'.Valid() && k.Bits() == k'.Bits()
    ensures k == k'
  {
    var e, e' := 2 * k.ph + k.pl, 2 * k'.ph + k'.pl;
    var d, d' := 4 * e + k.sh, 4 * e' + k'.sh;
    var c, c' := 2 * d + k.sl, 2 * d' + k'.sl;
    var b, b' := 2 * c + k.v, 2 * c' + k'.v;
    var a, a' := 4 * b + k.wx, 4 * b' + k'.wx;
    Peel2(a, k.y, a', k'.y);
    Peel4(b, k.wx, b', k'.wx);
    Peel2(c, k.v, c', k'.v);
    Peel2(d, k.sl, d', k'.sl);
    Peel4(e, k.sh, e', k'.sh);
    Peel2(k.ph, k.pl, k'.ph, k'.pl);
  }

  lemma Peel2(a: nat, r: nat, a': nat, r': nat)
    requires r < 2 && r' < 2 && 2 * a + r == 2 * a' + r'
    ensures a == a' && r == r'
  {
  }

  lemma Peel4(a: nat, r: nat, a': nat, r': nat)
    requires r < 4 && r' < 4 && 4 * a + r == 4 * a' + r'
    ensures a == a' && r == r'
  {
  }

  lemma Peel10(a: nat, r: nat, a': nat, r': nat)
    requires r < 10 && r' < 10 && 10 * a + r == 10 * a' + r'
    ensures a == a' && r == r'
  {
  }

  lemma BitsOfCode(b: nat)
    requires b < 1024
    ensures CodeOf(b).Valid() && CodeOf(b).Bits() == b
  {
    BitsSplit(b);
  }

  lemma CodeOfBits(k: Code)
    requires k.Valid()
    ensures k.Bits() < 1024 && CodeOf(k.Bits()) == k
  {
    BitsOfCode(k.Bits());
    CodeUnique(k, CodeOf(k.Bits()));
  }

  /** Three digits as halves and last bits; a half of four marks a digit of eight or nine. */
  datatype Triple = Triple(ah: nat, al: nat, bh: nat, bl: nat, ch: nat, cl: nat) {
    predicate Valid() {
      ah <= 4 && al < 2 && bh <= 4 && bl < 2 && ch <= 4 && cl < 2
    }

    function Number(): nat {
      100 * (2 * ah + al) + 10 * (2 * bh + bl) + (2 * ch + cl)
    }
  }

  /** The code of three digits: the last bits keep their places, the halves share what is left. */
  function EncodeTriple(t: Triple): Code {
    var k := Code(t.ah, t.al, t.bh, t.bl, 1, 3, t.cl);
    if t.ah < 4 && t.bh < 4 && t.ch < 4 then k.(v := 0, wx := t.ch)
    else if t.ah < 4 && t.bh < 4 then k.(wx := 0)
    else if t.ah < 4 && t.ch < 4 then k.(sh := t.ch, wx := 1)
    else if t.bh < 4 && t.ch < 4 then k.(ph := t.ch, wx := 2)
    else if t.ch < 4 then k.(ph := t.ch, sh := 0)
    else if t.bh < 4 then k.(ph := t.bh, sh := 1)
    else if t.ah < 4 then k.(sh := 2)
    else k.(ph := 0, sh := 3)
  }

  function DecodeTriple(k: Code): Triple {
    var t := Triple(k.ph, k.pl, k.sh, k.sl, k.wx, k.y);
    if k.v == 0 then t
    else if k.wx == 0 then t.(ch := 4)
    else if k.wx == 1 then t.(bh := 4, ch := k.sh)
    else if k.wx == 2 then t.(ah := 4, ch := k.ph)
    else if k.sh == 0 then t.(ah := 4, bh := 4, ch := k.ph)
    else if k.sh == 1 then t.(ah := 4, bh := k.ph, ch := 4)
    else if k.sh == 2 then t.(bh := 4, ch := 4)
    else t.(ah := 4, bh := 4, ch := 4)
  }

  /** A bit set where three large digits leave one unused. */
  predicate Redundant(k: Code) {
    k.v == 1 && k.wx == 3 && k.sh == 3 && k.ph != 0
  }

  lemma DecodeEncodeTriple(t: Triple)
    requires t.Valid()
    ensures EncodeTriple(t).Valid() && DecodeTriple(EncodeTriple(t)) == t && !Redundant(EncodeTriple(t))
  {
  }

  lemma EncodeDecodeTriple(k: Code)
    requires k.Valid()
    ensures DecodeTriple(k).Valid() && (EncodeTriple(DecodeTriple(k)) == k <==> !Redundant(k))
  {
  }

  /** The halves and last bits of three digits, by division. */
  function SplitDigits(n: nat): Triple {
    Triple(n / 10 / 10 / 2, n / 10 / 10 % 2, n / 10 % 10 / 2, n / 10 % 10 % 2, n % 10 / 2, n % 10 % 2)
  }

  lemma DigitsSplit(n: nat)
    requires n < 1000
    ensures SplitDigits(n).Valid() && SplitDigits(n).Number() == n
  {
    var a, b, c := n / 10 / 10, n / 10 % 10, n % 10;
    assert n == 10 * (n / 10) + c && n / 10 == 10 * a + b;
    assert a == 2 * (a / 2) + a % 2 && b == 2 * (b / 2) + b % 2 && c == 2 * (c / 2) + c % 2;
  }

  /** The same, by the number they make. */
  ghost function TripleOf(n: nat): Triple {
    if n < 1000 then
      DigitsSplit(n);
      var t: Triple :| t.Valid() && t.Number() == n;
      t
    else Triple(0, 0, 0, 0, 0, 0)
  }

  lemma TripleUnique(t: Triple, t': Triple)
    requires t.Valid() && t'.Valid() && t.Number() == t'.Number()
    ensures t == t'
  {
    var a, b, c := 2 * t.ah + t.al, 2 * t.bh + t.bl, 2 * t.ch + t.cl;
    var a', b', c' := 2 * t'.ah + t'.al, 2 * t'.bh + t'.bl, 2 * t'.ch + t'.cl;
    Peel10(10 * a + b, c, 10 * a' + b', c');
    Peel10(a, b, a', b');
    Peel2(t.ah, t.al, t'.ah, t'.al);
    Peel2(t.bh, t.bl, t'.bh, t'.bl);
    Peel2(t.ch, t.cl, t'.ch, t'.cl);
  }

  lemma NumberOfTriple(n: nat)
    requires n < 1000
    ensures TripleOf(n).Valid() && TripleOf(n).Number() == n
  {
    DigitsSplit(n);
  }

  lemma TripleOfNumber(t: Triple)
    requires t.Valid()
    ensures t.Number() < 1000 && TripleOf(t.Number()) == t
  {
    NumberOfTriple(t.Number());
    TripleUnique(t, TripleOf(t.Number()));
  }

  /** The ten bits for a number below one thousand. */
  ghost function Encode(n: nat): nat {
    EncodeTriple(TripleOf(n)).Bits()
  }

  /** The number that ten bits stand for. */
  ghost function Decode(b: nat): nat {
    DecodeTriple(CodeOf(b)).Number()
  }

  /** What the encoding table holds (BIN2DPD). */
  method BinToDpd(n: nat) returns (dpd: nat)
    requires n < 1000
    ensures dpd == Encode(n) < 1024
  {
    DigitsSplit(n);
    NumberOfTriple(n);
    DecodeEncode(n);
    TripleUnique(SplitDigits(n), TripleOf(n));
    dpd := EncodeTriple(SplitDigits(n)).Bits();
  }

  /** What the decoding table holds (DPD2BIN). */
  method DpdToBin(dpd: nat) returns (n: nat)
    requires dpd < 1024
    ensures n == Decode(dpd) < 1000
  {
    BitsSplit(dpd);
    BitsOfCode(dpd);
    DecodeBounds(dpd);
    CodeUnique(SplitBits(dpd), CodeOf(dpd));
    n := DecodeTriple(SplitBits(dpd)).Number();
  }

  /** Decoding undoes encoding. */
  lemma DecodeEncode(n: nat)
    requires n < 1000
    ensures Encode(n) < 1024 && Decode(Encode(n)) == n
  {
    hide *;
    NumberOfTriple(n);
    DecodeEncodeTriple(TripleOf(n));
    CodeOfBits(EncodeTriple(TripleOf(n)));
    Unfolded(n, Encode(n));
  }

  lemma Unfolded(n: nat, b: nat)
    ensures Encode(n) == EncodeTriple(TripleOf(n)).Bits() && Decode(b) == DecodeTriple(CodeOf(b)).Number()
  {
  }

  /** Any ten bits decode to three digits. */
  lemma DecodeBounds(b: nat)
    requires b < 1024
    ensures Decode(b) < 1000
  {
    hide *;
    BitsOfCode(b);
    EncodeDecodeTriple(CodeOf(b));
    TripleOfNumber(DecodeTriple(CodeOf(b)));
    Unfolded(0, b);
  }

  /** Encoding undoes decoding for all but 24 codes, those of three large digits with an unused bit set. */
  lemma CanonicalCodes(b: nat)
    requires b < 1024
    ensures Encode(Decode(b)) == b <==> !Redundant(CodeOf(b))
  {
    hide *;
    BitsOfCode(b);
    EncodeDecodeTriple(CodeOf(b));
    TripleOfNumber(DecodeTriple(CodeOf(b)));
    Unfolded(Decode(b), b);
    var k := EncodeTriple(DecodeTriple(CodeOf(b)));
    DecodeEncodeTriple(DecodeTriple(CodeOf(b)));
    CodeOfBits(k);
  }

  /** The least of those is 0x16e, so a smaller code needs no table to be known canonical (CANONDPD). */
  lemma SmallCanonical(b: nat)
    requires b < 0x16e
    ensures Encode(Decode(b)) == b
  {
    CanonicalCodes(b);
    BitsOfCode(b);
    hide CodeOf, Encode, Decode;
  }

  lemma LeastRedundant()
    ensures Encode(Decode(0x16e)) != 0x16e
  {
    var k := Code(1, 0, 3, 0, 1, 3, 0);
    CodeOfBits(k);
    CanonicalCodes(0x16e);
    hide CodeOf, Encode, Decode;
  }

  /** A lone digit is its own code. */
  lemma SmallCodes(x: nat)
    requires x <= 9
    ensures Encode(x) == x && Decode(x) == x
  {
    hide *;
    LastDigit(x);
    TripleOfNumber(Triple(0, 0, 0, 0, x / 2, x % 2));
    Unfolded(x, 0);
    DecodeEncode(x);
  }

  lemma LastDigit(x: nat)
    requires x <= 9
    ensures var t := Triple(0, 0, 0, 0, x / 2, x % 2);
      t.Valid() && t.Number() == x && EncodeTriple(t).Bits() == x
  {
  }

  lemma EncodeZero()
    ensures Encode(0) == 0 && Decode(0) == 0
  {
    SmallCodes(0);
  }

  // ---- the code, bit by bit ----

  function Bit(b: bool): nat {
    if b then 1 else 0
  }

  /** A decimal digit of four bits. */
  function FourBits(a: bool, b: bool, c: bool, d: bool): nat {
    8 * Bit(a) + 4 * Bit(b) + 2 * Bit(c) + Bit(d)
  }

  function TenBits(p: bool, q: bool, r: bool, s: bool, t: bool, u: bool, v: bool, w: bool, x: bool, y: bool): nat {
    512 * Bit(p) + 256 * Bit(q) + 128 * Bit(r) + 64 * Bit(s) + 32 * Bit(t) + 16 * Bit(u) + 8 * Bit(v) + 4 * Bit(w) + 2 * Bit(x) + Bit(y)
  }

  /** The bits as the fields that share digits and code. */
  function TripleBits(a: bool, b: bool, c: bool, d: bool, e: bool, f: bool, g: bool, h: bool, i: bool, j: bool, k: bool, m: bool): Triple {
    Triple(4 * Bit(a) + 2 * Bit(b) + Bit(c), Bit(d), 4 * Bit(e) + 2 * Bit(f) + Bit(g), Bit(h), 4 * Bit(i) + 2 * Bit(j) + Bit(k), Bit(m))
  }

  function CodeBits(p: bool, q: bool, r: bool, s: bool, t: bool, u: bool, v: bool, w: bool, x: bool, y: bool): Code {
    Code(2 * Bit(p) + Bit(q), Bit(r), 2 * Bit(s) + Bit(t), Bit(u), Bit(v), 2 * Bit(w) + Bit(x), Bit(y))
  }

  lemma CodeSum(p: bool, q: bool, r: bool, s: bool, t: bool, u: bool, v: bool, w: bool, x: bool, y: bool)
    ensures var k := CodeBits(p, q, r, s, t, u, v, w, x, y);
      k.Valid() && k.Bits() == TenBits(p, q, r, s, t, u, v, w, x, y)
  {
    BitBound(p);
    BitBound(q);
    BitBound(s);
    BitBound(t);
    BitBound(w);
    BitBound(x);
    BitBound(r);
    BitBound(u);
    BitBound(v);
    BitBound(y);
    hide Bit;
  }

  lemma BitBound(b: bool)
    ensures Bit(b) <= 1
  {
  }

  lemma TripleFields(a: bool, b: bool, c: bool, d: bool, e: bool, f: bool, g: bool, h: bool, i: bool, j: bool, k: bool, m: bool)
    ensures var t := TripleBits(a, b, c, d, e, f, g, h, i, j, k, m);
      && t.Number() == 100 * FourBits(a, b, c, d) + 10 * FourBits(e, f, g, h) + FourBits(i, j, k, m)
      && ((a ==> !b && !c) && (e ==> !f && !g) && (i ==> !j && !k) ==> t.Valid())
  {
    BitBound(d);
    BitBound(h);
    BitBound(m);
  }

  lemma EncodeFields(a: bool, b: bool, c: bool, d: bool, e: bool, f: bool, g: bool, h: bool, i: bool, j: bool, k: bool, m: bool)
    requires (a ==> !b && !c) && (e ==> !f && !g) && (i ==> !j && !k)
    ensures EncodeTriple(TripleBits(a, b, c, d, e, f, g, h, i, j, k, m)) == CodeBits(
      b || (a && j) || (a && f && i),
      c || (a && k) || (a && g && i),
      d,
      (f && (!a || !i)) || (!a && e && j) || (e && i),
      g || (!a && e && k) || (a && i),
      h,
      a || e || i,
      a || (e && i) || (!e && j),
      e || (a && i) || (!a && k),
      m)
  {
  }

  lemma DecodeFields(p: bool, q: bool, r: bool, s: bool, t: bool, u: bool, v: bool, w: bool, x: bool, y: bool)
    ensures DecodeTriple(CodeBits(p, q, r, s, t, u, v, w, x, y)) == TripleBits(
      v && w && (!s || t || !x),
      p && (!v || !w || (s && !t && x)),
      q && (!v || !w || (s && !t && x)),
      r,
      v && ((!w && x) || (!t && x) || (s && x)),
      (s && (!v || !x)) || (p && !s && t && v && w && x),
      (t && (!v || !x)) || (q && !s && t && v && w && x),
      u,
      v && ((!w && !x) || (w && x && (s || t))),
      (!v && w) || (s && v && !w && x) || (p && v && w && (!x || (!s && !t))),
      (!v && x) || (t && v && !w && x) || (q && v && w && (!x || (!s && !t))),
      y)
  {
  }

  /** The digits abcd, efgh and ijkm encode to the bits p to y of the standard's equations (IEEE 754, section 3.5.2). */
  lemma EncodeBits(a: bool, b: bool, c: bool, d: bool, e: bool, f: bool, g: bool, h: bool, i: bool, j: bool, k: bool, m: bool)
    requires (a ==> !b && !c) && (e ==> !f && !g) && (i ==> !j && !k)
    ensures Encode(100 * FourBits(a, b, c, d) + 10 * FourBits(e, f, g, h) + FourBits(i, j, k, m)) == TenBits(
      b || (a && j) || (a && f && i),
      c || (a && k) || (a && g && i),
      d,
      (f && (!a || !i)) || (!a && e && j) || (e && i),
      g || (!a && e && k) || (a && i),
      h,
      a || e || i,
      a || (e && i) || (!e && j),
      e || (a && i) || (!a && k),
      m)
  {
    hide *;
    var t := TripleBits(a, b, c, d, e, f, g, h, i, j, k, m);
    TripleFields(a, b, c, d, e, f, g, h, i, j, k, m);
    TripleOfNumber(t);
    Unfolded(t.Number(), 0);
    EncodeFields(a, b, c, d, e, f, g, h, i, j, k, m);
    CodeSum(
      b || (a && j) || (a && f && i),
      c || (a && k) || (a && g && i),
      d,
      (f && (!a || !i)) || (!a && e && j) || (e && i),
      g || (!a && e && k) || (a && i),
      h,
      a || e || i,
      a || (e && i) || (!e && j),
      e || (a && i) || (!a && k),
      m);
  }

  /** Any bits p to y decode to the three digits of the equations for decoding. */
  lemma DecodeBits(p: bool, q: bool, r: bool, s: bool, t: bool, u: bool, v: bool, w: bool, x: bool, y: bool)
    ensures var a := v && w && (!s || t || !x);
      var b := p && (!v || !w || (s && !t && x));
      var c := q && (!v || !w || (s && !t && x));
      var e := v && ((!w && x) || (!t && x) || (s && x));
      var f := (s && (!v || !x)) || (p && !s && t && v && w && x);
      var g := (t && (!v || !x)) || (q && !s && t && v && w && x);
      var i := v && ((!w && !x) || (w && x && (s || t)));
      var j := (!v && w) || (s && v && !w && x) || (p && v && w && (!x || (!s && !t)));
      var k := (!v && x) || (t && v && !w && x) || (q && v && w && (!x || (!s && !t)));
      Decode(TenBits(p, q, r, s, t, u, v, w, x, y)) ==
        100 * FourBits(a, b, c, r) + 10 * FourBits(e, f, g, u) + FourBits(i, j, k, y)
  {
    hide *;
    var code := CodeBits(p, q, r, s, t, u, v, w, x, y);
    CodeSum(p, q, r, s, t, u, v, w, x, y);
    CodeOfBits(code);
    Unfolded(0, code.Bits());
    DecodeFields(p, q, r, s, t, u, v, w, x, y);
    var a := v && w && (!s || t || !x);
    var b := p && (!v || !w || (s && !t && x));
    var c := q && (!v || !w || (s && !t && x));
    var e := v && ((!w && x) || (!t && x) || (s && x));
    var f := (s && (!v || !x)) || (p && !s && t && v && w && x);
    var g := (t && (!v || !x)) || (q && !s && t && v && w && x);
    var i := v && ((!w && !x) || (w && x && (s || t)));
    var j := (!v && w) || (s && v && !w && x) || (p && v && w && (!x || (!s && !t)));
    var k := (!v && x) || (t && v && !w && x) || (q && v && w && (!x || (!s && !t)));
    TripleFields(a, b, c, r, e, f, g, u, i, j, k, y);
  }
}
