/** Declets in an array of 32-bit words, least significant first, some of them across two words. */
module DpdWords {
  import opened Powers
  import opened Billions

  function {:induction false} Two(n: nat): (p: nat)
    ensures p >= 1
  {
    if n == 0 then 1 else 2 * Two(n - 1)
  }

  lemma {:induction false} TwoAdd(a: nat, b: nat)
    ensures Two(a + b) == Two(a) * Two(b)
  {
    if a > 0 {
      TwoAdd(a - 1, b);
      MulAssoc(2, Two(a - 1), Two(b));
    }
  }

  lemma TwoFacts()
    ensures Two(0) == 1 && Two(10) == 1024 && Two(32) == WORD
  {
    assert Two(5) == 32 && Two(10) == 1024;
    TwoAdd(10, 10);
    TwoAdd(20, 10);
    TwoAdd(30, 2);
    assert Two(2) == 4;
  }

  /** n with k zero bits after it. */
  function Scaled(n: nat, k: nat): nat {
    n * Two(k)
  }

  /** The shifts of 32-bit words: bits moved out at the top are lost. */
  function ShiftLeft(n: nat, k: nat): nat {
    Scaled(n, k) % 0x1_0000_0000
  }

  function ShiftRight(n: nat, k: nat): nat {
    Quotient(n, Two(k))
  }

  /** The number the words hold. */
  function Words(w: seq<nat>): nat {
    if w == [] then 0 else w[0] + WORD * Words(w[1..])
  }

  lemma {:induction false} WordsAddAt(s: seq<nat>, k: nat, v: nat)
    requires k < |s|
    ensures Words(s[k := s[k] + v]) == Words(s) + Scaled(v, 32 * k)
  {
    var t := s[k := s[k] + v];
    if k == 0 {
      assert t[1..] == s[1..] && Two(0) == 1;
    } else {
      assert t[1..] == s[1..][k - 1 := s[1..][k - 1] + v];
      WordsAddAt(s[1..], k - 1, v);
      OneWordUp(v, k - 1);
      hide Scaled;
    }
  }

  lemma OneWordUp(v: nat, k: nat)
    ensures Scaled(v, 32 * (k + 1)) == WORD * Scaled(v, 32 * k)
  {
    TwoAdd(32, 32 * k);
    TwoFacts();
    hide Two;
    assert WORD * (v * Two(32 * k)) == v * (WORD * Two(32 * k));
  }

  // ---- writing ----

  /** Nothing has been written from bit off of word i on. */
  predicate Clear(w: seq<nat>, i: nat, off: nat) {
    && i < |w| && off < 32 && w[i] < Two(off)
    && (forall j :: 0 <= j < |w| ==> w[j] < WORD) && (forall j :: i < j < |w| ==> w[j] == 0)
  }

  /** The OR of a word with bits above those in use is their sum. */
  function Union(word: nat, bits: nat, off: nat): nat
    requires word < Two(off) && bits % Two(off) == 0
  {
    word + bits
  }

  /** Bits in no common place: OR and sum agree. */
  lemma OrIsSum(word: bv32, bits: bv32)
    requires word & bits == 0
    ensures word | bits == word + bits
  {
  }

  /** Ten bits that fit the rest of a word. */
  lemma WithinWord(word: nat, dpd: nat, off: nat)
    requires off + 10 < 32 && word < Two(off) && dpd < 1024
    ensures ShiftLeft(dpd, off) == Scaled(dpd, off) && ShiftLeft(dpd, off) % Two(off) == 0
    ensures word + ShiftLeft(dpd, off) < Two(off + 10) < WORD
  {
    TwoFacts();
    TwoAdd(off, 10);
    TwoAdd(off + 10, 22 - off);
    TwoAtLeast(22 - off);
    hide Two;
    WithinPower(word, dpd, Two(off), Two(22 - off));
    DivModUnique(dpd * Two(off), Two(off), dpd, 0);
  }

  lemma TwoAtLeast(n: nat)
    ensures n > 0 ==> Two(n) >= 2
  {
  }

  lemma WithinPower(word: nat, dpd: nat, t: nat, u: nat)
    requires word < t && dpd < 1024 && u >= 2
    ensures 0 <= dpd * t && word + dpd * t < t * 1024 < t * 1024 * u
  {
    MulLe(dpd + 1, 1024, t);
    assert (dpd + 1) * t == dpd * t + t;
    MulLe(2, u, t * 1024);
  }

  /** Ten bits that do not: what is left for the next word. */
  lemma AcrossWords(word: nat, dpd: nat, off: nat)
    requires 22 <= off < 32 && word < Two(off) && dpd < 1024
    ensures var low, high := ShiftLeft(dpd, off), ShiftRight(dpd, 32 - off);
      low % Two(off) == 0 && word + low < WORD && high < Two(off - 22) && Scaled(dpd, off) == low + WORD * high
  {
    TwoFacts();
    TwoAdd(off, 32 - off);
    TwoAdd(32 - off, off - 22);
    hide Two;
    AcrossPowers(word, dpd, Two(off), Two(32 - off), Two(off - 22));
  }

  lemma AcrossPowers(word: nat, dpd: nat, t: nat, u: nat, v: nat)
    requires t * u == WORD && u * v == 1024 && word < t && dpd < 1024 && t > 0 && u > 0
    ensures var low, high := dpd * t % WORD, dpd / u;
      low % t == 0 && word + low < WORD && high < v && dpd * t == low + WORD * high
  {
    var q, r := dpd / u, dpd % u;
    DivModFact(dpd, u);
    assert dpd * t == q * WORD + r * t by {
      assert (q * u + r) * t == q * (t * u) + r * t;
    }
    MulLe(r + 1, u, t);
    assert (r + 1) * t == r * t + t && u * t == WORD;
    DivModUnique(dpd * t, WORD, q, r * t);
    DivModUnique(r * t, t, r, 0);
    if q >= v { MulLe(v, q, u); }
  }

  lemma ScaledTwice(n: nat, a: nat, b: nat)
    ensures Scaled(Scaled(n, a), b) == Scaled(n, a + b)
  {
    TwoAdd(a, b);
    MulAssoc(n, Two(a), Two(b));
  }

  lemma ScaledSum(i: nat, low: nat, high: nat, v: nat)
    requires v == low + WORD * high
    ensures Scaled(low, 32 * i) + Scaled(high, 32 * (i + 1)) == Scaled(v, 32 * i)
  {
    TwoAdd(32, 32 * i);
    TwoFacts();
    hide Two;
    var p := Two(32 * i);
    assert (low + WORD * high) * p == low * p + high * (WORD * p);
  }

  /** The words once ten bits have been put in the rest of word i. */
  lemma WrittenWithin(s: seq<nat>, i: nat, off: nat, dpd: nat)
    requires Clear(s, i, off) && dpd < 1024 && off + 10 < 32
    ensures s[i] < Two(off) && ShiftLeft(dpd, off) % Two(off) == 0
    ensures var t := s[i := s[i] + ShiftLeft(dpd, off)];
      Words(t) == Words(s) + Scaled(dpd, 32 * i + off) && Clear(t, i, off + 10)
  {
    WithinWord(s[i], dpd, off);
    hide Two, Words, Scaled, ShiftLeft;
    WordsAddAt(s, i, Scaled(dpd, off));
    ScaledTwice(dpd, off, 32 * i);
  }

  /** The words once they have been put across word i and the next. */
  lemma WrittenAcross(s: seq<nat>, i: nat, off: nat, dpd: nat)
    requires Clear(s, i, off) && dpd < 1024 && 22 <= off < 32 && i + 1 < |s|
    ensures s[i] < Two(off) && ShiftLeft(dpd, off) % Two(off) == 0
    ensures var t := s[i := s[i] + ShiftLeft(dpd, off)];
      var u := t[i + 1 := t[i + 1] + ShiftRight(dpd, 32 - off)];
      Words(u) == Words(s) + Scaled(dpd, 32 * i + off) && Clear(u, i + 1, off - 22)
  {
    hide *;
    var low, high := ShiftLeft(dpd, off), ShiftRight(dpd, 32 - off);
    var t := s[i := s[i] + low];
    ClearWord(s, i, off);
    AcrossWords(s[i], dpd, off);
    AcrossClear(s, i, off, low, high);
    WordsAddAt(s, i, low);
    WordsAddAt(t, i + 1, high);
    ScaledSum(i, low, high, Scaled(dpd, off));
    ScaledTwice(dpd, off, 32 * i);
  }

  lemma ClearWord(s: seq<nat>, i: nat, off: nat)
    requires Clear(s, i, off)
    ensures s[i] < Two(off)
  {
  }

  lemma AcrossClear(s: seq<nat>, i: nat, off: nat, low: nat, high: nat)
    requires Clear(s, i, off) && 22 <= off < 32 && i + 1 < |s| && s[i] + low < WORD && high < Two(off - 22)
    ensures var t := s[i := s[i] + low];
      Clear(t[i + 1 := t[i + 1] + high], i + 1, off - 22)
  {
    TwoFacts();
    TwoAdd(off - 22, 54 - off);
    hide Two;
    MulLe(1, Two(54 - off), Two(off - 22));
  }

  /** Writes ten bits at bit off of word i, the top of them in the next word if they do not fit. */
  method WriteDeclet(targ: array<nat>, i: nat, off: nat, dpd: nat) returns (i': nat, off': nat)
    requires Clear(targ[..], i, off) && i < targ.Length && off < 32 && dpd < 1024 && (off + 10 >= 32 ==> i + 1 < targ.Length)
    modifies targ
    ensures Words(targ[..]) == old(Words(targ[..])) + Scaled(dpd, 32 * i + off)
    ensures i' < targ.Length && off' < 32 && Clear(targ[..], i', off') && 32 * i' + off' == 32 * i + off + 10
  {
    hide *;
    ghost var s := targ[..];
    var low := ShiftLeft(dpd, off);
    i', off' := i, off + 10;
    if off' < 32 {
      WrittenWithin(s, i, off, dpd);
      SumOf(s[i], low, off);
      targ[i] := Union(targ[i], low, off);
      assert targ[..] == s[i := s[i] + low];
    } else {
      WrittenAcross(s, i, off, dpd);
      SumOf(s[i], low, off);
      targ[i] := Union(targ[i], low, off);
      ghost var t := targ[..];
      assert t == s[i := s[i] + low];
      i', off' := i + 1, off' - 32;
      targ[i'] := targ[i'] + ShiftRight(dpd, 10 - off');
      assert targ[..] == t[i + 1 := t[i + 1] + ShiftRight(dpd, 32 - off)];
    }
  }

  lemma SumOf(word: nat, bits: nat, off: nat)
    requires word < Two(off) && bits % Two(off) == 0
    ensures Union(word, bits, off) == word + bits
  {
  }

  // ---- reading ----

  /** What is left of the number from bit off of word i on. */
  function Rest(w: seq<nat>, i: nat, off: nat): nat
    requires i < |w| && off <= 32
  {
    ShiftRight(w[i], off) + Scaled(Words(w[i + 1..]), 32 - off)
  }

  /** Reading ten bits takes them off what is left. */
  lemma RestWithin(w: seq<nat>, i: nat, off: nat)
    requires i < |w| && off + 10 <= 32
    ensures Rest(w, i, off) % 1024 == ShiftRight(w[i], off) % 1024
    ensures Rest(w, i, off + 10) == Rest(w, i, off) / 1024
  {
    hide Two, Words, Scaled, ShiftRight;
    ShiftedTwice(w[i], off);
    ScaledByTen(Words(w[i + 1..]), 22 - off);
    PartsOf(ShiftRight(w[i], off), Scaled(Words(w[i + 1..]), 22 - off));
  }

  lemma ScaledByTen(n: nat, k: nat)
    ensures Scaled(n, k + 10) == 1024 * Scaled(n, k)
  {
    TwoFacts();
    TwoAdd(k, 10);
    hide Two;
    MulAssoc(n, Two(k), 1024);
  }

  lemma ShiftedTwice(a: nat, off: nat)
    ensures ShiftRight(a, off + 10) == ShiftRight(a, off) / 1024
  {
    TwoFacts();
    TwoAdd(off, 10);
    hide Two;
    NestedDivision(a, Two(off));
  }

  lemma NestedDivision(a: nat, t: nat)
    requires t > 0
    ensures a / t / 1024 == a / (t * 1024)
  {
    var q, r := a / t, a % t;
    DivModFact(a, t);
    assert q == q / 1024 * 1024 + q % 1024;
    assert a == q / 1024 * (t * 1024) + (q % 1024 * t + r) by {
      assert (q / 1024 * 1024 + q % 1024) * t == q / 1024 * (t * 1024) + q % 1024 * t;
    }
    MulLe(q % 1024 + 1, 1024, t);
    assert (q % 1024 + 1) * t == q % 1024 * t + t;
    DivModUnique(a, t * 1024, q / 1024, q % 1024 * t + r);
  }

  lemma PartsOf(a: nat, s: nat)
    ensures (a + 1024 * s) % 1024 == a % 1024 && (a + 1024 * s) / 1024 == a / 1024 + s
  {
  }

  lemma RestAcross(w: seq<nat>, i: nat, off: nat)
    requires 22 < off < 32 && i + 1 < |w| && w[i] < WORD
    ensures Rest(w, i, off) % 1024 == (ShiftRight(w[i], off) + ShiftLeft(w[i + 1], 32 - off)) % 1024
    ensures Rest(w, i + 1, off - 22) == Rest(w, i, off) / 1024
  {
    var y, s := w[i + 1], Words(w[i + 2..]);
    assert w[i + 1..][0] == y && w[i + 1..][1..] == w[i + 2..];
    assert Words(w[i + 1..]) == y + WORD * s;
    hide Words, Two, Scaled, ShiftRight, ShiftLeft;
    AcrossRest(w[i], y, s, off);
  }

  lemma AcrossRest(a: nat, y: nat, s: nat, off: nat)
    requires 22 < off < 32 && a < WORD
    ensures (ShiftRight(a, off) + Scaled(y + WORD * s, 32 - off)) % 1024 == (ShiftRight(a, off) + ShiftLeft(y, 32 - off)) % 1024
    ensures (ShiftRight(a, off) + Scaled(y + WORD * s, 32 - off)) / 1024 == ShiftRight(y, off - 22) + Scaled(s, 54 - off)
  {
    hide Two;
    AcrossTwo(off);
    HighBits(a, Two(off), Two(32 - off));
    AcrossParts(a / Two(off), y, Two(32 - off), Two(off - 22), Two(54 - off), s);
  }

  lemma AcrossTwo(off: nat)
    requires 22 < off < 32
    ensures Two(32 - off) * Two(off - 22) == 1024 && Two(off) * Two(32 - off) == WORD && Two(off - 22) * Two(54 - off) == WORD
  {
    hide Two;
    TwoFacts();
    TwoAdd(32 - off, off - 22);
    TwoAdd(off, 32 - off);
    TwoAdd(off - 22, 54 - off);
  }

  lemma HighBits(a: nat, t: nat, u: nat)
    requires t * u == WORD && t > 0 && a < WORD
    ensures a / t < u
  {
    DivModFact(a, t);
    if a / t >= u { MulLe(u, a / t, t); }
  }

  lemma AcrossParts(x: nat, y: nat, u: nat, v: nat, z: nat, s: nat)
    requires u * v == 1024 && v * z == WORD && x < u && v > 0
    ensures (x + (y + WORD * s) * u) % 1024 == (x + y * u % WORD) % 1024
    ensures (x + (y + WORD * s) * u) / 1024 == y / v + s * z
  {
    var q, r := y / v, y % v;
    DivModFact(y, v);
    var low := x + r * u;
    LowParts(x, r, u, v);
    AcrossSum(y, q, r, u, v, z, s);
    PartsOf(low, q + s * z);
    PartsOf(low, q);
    WordModulus(x, y * u);
  }

  lemma LowParts(x: nat, r: nat, u: nat, v: nat)
    requires x < u && r < v && u * v == 1024
    ensures x + r * u < 1024
  {
    MulLe(r + 1, v, u);
    Spread(r, 1, u);
  }

  lemma AcrossSum(y: nat, q: nat, r: nat, u: nat, v: nat, z: nat, s: nat)
    requires y == q * v + r && u * v == 1024 && v * z == WORD
    ensures y * u == r * u + 1024 * q && (y + WORD * s) * u == r * u + 1024 * (q + s * z)
  {
    Spread(q * v, r, u);
    MulAssoc(q, v, u);
    Regroup(u, v, z, s);
    Spread(y, WORD * s, u);
  }

  lemma Regroup(u: nat, v: nat, z: nat, s: nat)
    ensures v * z * s * u == u * v * (s * z)
  {
    MulAssoc(u, v, s * z);
    MulAssoc(v, z, s);
    MulAssoc(v, z * s, u);
  }

  lemma Spread(a: nat, b: nat, u: nat)
    ensures (a + b) * u == a * u + b * u
  {
  }

  lemma WordModulus(x: nat, a: nat)
    ensures (x + a % WORD) % 1024 == (x + a) % 1024
  {
    var k := a / WORD;
    assert a == k * WORD + a % WORD;
    PartsOf(x + a % WORD, k * 0x40_0000);
  }

  /** Reads ten bits at bit off of word i, the top of them from the next word if they go across. */
  method ReadDeclet(sour: seq<nat>, i: nat, off: nat) returns (dpd: nat, i': nat, off': nat)
    requires i < |sour| && off < 32 && (off + 10 > 32 ==> i + 1 < |sour|)
    requires forall j :: 0 <= j < |sour| ==> sour[j] < 0x1_0000_0000
    ensures i' < |sour| && 0 < off' <= 32 && 32 * i' + off' == 32 * i + off + 10
    ensures dpd == Rest(sour, i, off) % 1024 && Rest(sour, i', off') == Rest(sour, i, off) / 1024
  {
    hide *;
    WordBound();
    dpd := ShiftRight(sour[i], off);
    i', off' := i, off + 10;
    if off' > 32 {
      RestAcross(sour, i, off);
      i', off' := i + 1, off' - 32;
      dpd := dpd + ShiftLeft(sour[i'], 10 - off');
    } else {
      RestWithin(sour, i, off);
    }
    dpd := dpd % 1024;
  }

  lemma WordBound()
    ensures WORD == 0x1_0000_0000
  {
  }
}
