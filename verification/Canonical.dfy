/** decCanonical: redundant declets repaired in place, in words of any number. */
module Canonical {
  import opened Powers
  import opened Billions
  import opened Dpd
  import opened DpdWords
  import opened Interchange64

  // ---- what is repaired ----

  /** The n low declets of v, each replaced by the one its digits encode to. */
  ghost function Repaired(v: nat, n: nat): nat {
    if n == 0 then 0 else Encode(Decode(v % 1024)) + 1024 * Repaired(v / 1024, n - 1)
  }

  lemma RepairedStep(v: nat, n: nat)
    ensures Repaired(v, n) == if n == 0 then 0 else Encode(Decode(v % 1024)) + 1024 * Repaired(v / 1024, n - 1)
  {
    hide Encode, Decode;
  }

  /** They stand for the same number, and are canonical. */
  lemma {:induction false} RepairedMeans(v: nat, n: nat)
    ensures Repaired(v, n) < Shifts(n) && Number(Repaired(v, n), n) == Number(v, n) && CanonicalDeclets(Repaired(v, n), n)
  {
    hide *;
    var r := Repaired(v, n);
    RepairedStep(v, n);
    CanonicalStep(r, n);
    if n == 0 {
      AtBottom(0);
      NothingThere(v);
      NothingThere(r);
    } else {
      var c := Encode(Decode(v % 1024));
      RepairedMeans(v / 1024, n - 1);
      DecodeBounds(v % 1024);
      DecodeEncode(Decode(v % 1024));
      PartsOf(c, Repaired(v / 1024, n - 1));
      assert c % 1024 == c && c / 1024 == 0;
      NumberStep(v, n);
      NumberStep(r, n);
      OneDecletUp(0, n);
    }
  }

  /** Canonical declets need no repair. */
  lemma {:induction false} RepairedKeeps(v: nat, n: nat)
    requires v < Shifts(n) && CanonicalDeclets(v, n)
    ensures Repaired(v, n) == v
  {
    hide *;
    RepairedMeans(v, n);
    CanonicalUnique(Repaired(v, n), v, n);
  }

  /** What lies above the n declets does not matter. */
  lemma {:induction false} RepairedLow(v: nat, n: nat, top: nat)
    ensures Repaired(v + AsBits(top, n), n) == Repaired(v, n)
  {
    hide *;
    RepairedStep(v, n);
    RepairedStep(v + AsBits(top, n), n);
    if n > 0 {
      OneDecletUp(top, n);
      PartsOf(v, AsBits(top, n - 1));
      RepairedLow(v / 1024, n - 1, top);
    }
  }

  // ---- one declet, in one word or across two ----

  predicate AllWords(w: seq<nat>) {
    forall i :: 0 <= i < |w| ==> w[i] < WORD
  }

  lemma {:induction false} WordsSet(s: seq<nat>, k: nat, x: nat)
    requires k < |s|
    ensures Words(s[k := x]) + Scaled(s[k], 32 * k) == Words(s) + Scaled(x, 32 * k)
  {
    var t := s[k := x];
    if k == 0 {
      assert t[1..] == s[1..] && Two(0) == 1;
    } else {
      assert t[1..] == s[1..][k - 1 := x];
      WordsSet(s[1..], k - 1, x);
      OneWordUp(s[k], k - 1);
      OneWordUp(x, k - 1);
      hide Scaled;
    }
  }

  /** A word with the ten bits from off on cleared. */
  function Cleared(word: nat, off: nat): nat {
    word % Two(off) + Scaled(ShiftRight(word, off + 10), off + 10)
  }

  /** New bits in the place of ten bits inside a word. */
  lemma ReplacedWithin(a: nat, off: nat, c: nat)
    requires off + 10 <= 32 && a < WORD && c < 1024
    ensures var x, d := Cleared(a, off) + Scaled(c, off), ShiftRight(a, off) % 1024;
      x < WORD && x + Scaled(d, off) == a + Scaled(c, off) && ShiftRight(x, off + 10) == ShiftRight(a, off + 10)
  {
    hide Two;
    TwoWithin(off);
    ShiftedTwice(a, off);
    WithinParts(a, Two(off), Two(off + 10), Two(22 - off), a / Two(off), c);
  }

  lemma TwoWithin(off: nat)
    requires off + 10 <= 32
    ensures Two(off + 10) == 1024 * Two(off) && Two(off + 10) * Two(22 - off) == WORD
  {
    hide Two;
    TwoFacts();
    TwoAdd(off, 10);
    TwoAdd(off + 10, 22 - off);
  }

  lemma WithinParts(a: nat, t: nat, T: nat, U: nat, h: nat, c: nat)
    requires t > 0 && T == 1024 * t && T * U == WORD && a < WORD && c < 1024 && h == a / t && h / 1024 == a / T
    ensures var x := a % t + a / T * T + c * t;
      0 <= x < WORD && x + h % 1024 * t == a + c * t && x / T == a / T
  {
    var q, r := a / T, a % t;
    DivModFact(a, t);
    DivModFact(a, T);
    LowEnough(r, c, t);
    HighEnough(q, T, U, a);
    var low: nat := r + c * t;
    Below(q, T, U, low);
    DivModUnique(low + q * T, T, q, low);
    Unpacked(h, q, h % 1024, t, T);
  }

  lemma LowEnough(r: nat, c: nat, t: nat)
    requires r < t && c < 1024
    ensures 0 <= r + c * t < 1024 * t
  {
    MulLe(c + 1, 1024, t);
    Spread(c, 1, t);
  }

  lemma HighEnough(q: nat, T: nat, U: nat, a: nat)
    requires q * T <= a < T * U
    ensures q < U
  {
    if q >= U { MulLe(U, q, T); }
  }

  lemma Below(q: nat, T: nat, U: nat, low: nat)
    requires q < U && low < T
    ensures low + q * T < T * U
  {
    MulLe(q + 1, U, T);
    Spread(q, 1, T);
  }

  lemma Unpacked(h: nat, q: nat, d: nat, t: nat, T: nat)
    requires h == 1024 * q + d && T == 1024 * t
    ensures h * t == q * T + d * t
  {
    Spread(1024 * q, d, t);
    MulAssoc(1024, q, t);
    MulAssoc(q, 1024, t);
  }

  /** New bits in the place of ten bits across two words. */
  lemma ReplacedAcross(a: nat, y: nat, off: nat, c: nat)
    requires 22 < off < 32 && a < WORD && y < WORD && c < 1024
    ensures var x, z := a % Two(off) + ShiftLeft(c, off), Scaled(ShiftRight(y, off - 22), off - 22) + ShiftRight(c, 32 - off);
      var d := (ShiftRight(a, off) + ShiftLeft(y, 32 - off)) % 1024;
      && x < WORD && z < WORD && ShiftRight(z, off - 22) == ShiftRight(y, off - 22)
      && x + WORD * z + Scaled(d, off) == a + WORD * y + Scaled(c, off)
  {
    hide Two;
    AcrossTwo(off);
    AcrossWords(a % Two(off), c, off);
    AcrossSides(a, y, Two(off), Two(32 - off), Two(off - 22), Two(54 - off), c, c * Two(off) % WORD, c / Two(32 - off));
  }

  lemma AcrossSides(a: nat, y: nat, t: nat, u: nat, v: nat, w: nat, c: nat, low: nat, high: nat)
    requires t > 0 && v > 0 && u * v == 1024 && t * u == WORD && v * w == WORD && a < WORD && y < WORD
    requires high < v && c * t == low + WORD * high
    ensures var d, z := (a / t + y * u % WORD) % 1024, y / v * v + high;
      0 <= z < WORD && z / v == y / v && a % t + low + WORD * z + d * t == a + WORD * y + c * t
  {
    var x, q, r := a / t, y / v, y % v;
    DivModFact(a, t);
    DivModFact(y, v);
    HighBits(a, t, u);
    HighEnough(q, v, w, y);
    Below(q, v, w, high);
    DivModUnique(q * v + high, v, q, high);
    AcrossDeclet(x, y, u, v, w, q, r);
    Straddles(a, x, a % t, y, q, r, t, u, v, x + r * u, low, high, c * t);
  }

  /** The ten bits that go across are the top of the one word and the bottom of the next. */
  lemma AcrossDeclet(x: nat, y: nat, u: nat, v: nat, w: nat, q: nat, r: nat)
    requires u * v == 1024 && v * w == WORD && x < u && r < v && y == q * v + r
    ensures (x + y * u % WORD) % 1024 == x + r * u
  {
    LowParts(x, r, u, v);
    AcrossSum(y, q, r, u, v, w, 0);
    WordModulus(x, y * u);
    PartsOf(x + r * u, q);
  }

  lemma Straddles(a: nat, x: nat, s: nat, y: nat, q: nat, r: nat, t: nat, u: nat, v: nat, d: nat, low: nat, high: nat, ct: nat)
    requires a == x * t + s && y == q * v + r && d == x + r * u && t * u == WORD && ct == low + WORD * high
    ensures s + low + WORD * (q * v + high) + d * t == a + WORD * y + ct
  {
    Spread(x, r * u, t);
    assert r * u * t == r * WORD by {
      MulAssoc(r, u, t);
    }
  }

  /** Reads ten bits at bit off of word i and, unless they are canonical, writes the canonical ones in their place. */
  method RepairDeclet(w: array<nat>, i: nat, off: nat) returns (i': nat, off': nat)
    requires i < w.Length && off < 32 && (off + 10 > 32 ==> i + 1 < w.Length) && AllWords(w[..])
    modifies w
    ensures AllWords(w[..]) && i' < w.Length && off' <= 32 && 32 * i' + off' == 32 * i + off + 10
    ensures var s := old(w[..]);
      var d := Rest(s, i, off) % 1024;
      && Rest(w[..], i', off') == Rest(s, i, off) / 1024
      && Words(w[..]) + Scaled(d, 32 * i + off) == Words(s) + Scaled(Encode(Decode(d)), 32 * i + off)
  {
    hide *;
    AllBelow(w[..]);
    var dpd;
    dpd, i', off' := ReadDeclet(w[..], i, off);
    if dpd < 0x16e {
      SmallCanonical(dpd);
      return;
    }
    var bin := DpdToBin(dpd);
    var canon := BinToDpd(bin);
    if canon == dpd {
      return;
    }
    ghost var s := w[..];
    if off' >= 10 {
      SetWithin(s, i, off, canon);
      w[i] := Cleared(w[i], off) + Scaled(canon, off);
      assert w[..] == s[i := Cleared(s[i], off) + Scaled(canon, off)];
    } else {
      SetAcross(s, i, off, canon);
      w[i] := w[i] % Two(off) + ShiftLeft(canon, off);
      ghost var t := w[..];
      assert t == s[i := s[i] % Two(off) + ShiftLeft(canon, off)];
      w[i'] := Scaled(ShiftRight(w[i'], off'), off') + ShiftRight(canon, 10 - off');
      ghost var z: nat := Scaled(ShiftRight(s[i + 1], off - 22), off - 22) + ShiftRight(canon, 32 - off);
      assert w[..] == t[i + 1 := z];
    }
  }

  lemma AllBelow(w: seq<nat>)
    requires AllWords(w)
    ensures forall j :: 0 <= j < |w| ==> w[j] < 0x1_0000_0000
  {
  }

  lemma SetWithin(s: seq<nat>, i: nat, off: nat, c: nat)
    requires i < |s| && off + 10 <= 32 && AllWords(s) && c < 1024
    ensures var t, d := s[i := Cleared(s[i], off) + Scaled(c, off)], Rest(s, i, off) % 1024;
      && AllWords(t) && Rest(t, i, off + 10) == Rest(s, i, off) / 1024
      && Words(t) + Scaled(d, 32 * i + off) == Words(s) + Scaled(c, 32 * i + off)
  {
    hide Two, Words, Scaled, ShiftRight, Cleared;
    var x, d := Cleared(s[i], off) + Scaled(c, off), ShiftRight(s[i], off) % 1024;
    ReplacedWithin(s[i], off, c);
    RestWithin(s, i, off);
    WordsSet(s, i, x);
    AtPlace(x, d, s[i], c, off, 32 * i);
    assert s[i := x][i + 1..] == s[i + 1..];
  }

  /** An equation between bits of a word, at the place of the word. */
  lemma AtPlace(x: nat, d: nat, a: nat, c: nat, off: nat, k: nat)
    requires x + Scaled(d, off) == a + Scaled(c, off)
    ensures Scaled(x, k) + Scaled(d, k + off) == Scaled(a, k) + Scaled(c, k + off)
  {
    ScaledTwice(d, off, k);
    ScaledTwice(c, off, k);
    hide Two;
    Spread(x, d * Two(off), Two(k));
    Spread(a, c * Two(off), Two(k));
  }

  lemma SetAcross(s: seq<nat>, i: nat, off: nat, c: nat)
    requires i + 1 < |s| && 22 < off < 32 && AllWords(s) && c < 1024
    ensures var t, d := s[i := s[i] % Two(off) + ShiftLeft(c, off)], Rest(s, i, off) % 1024;
      var u := t[i + 1 := Scaled(ShiftRight(s[i + 1], off - 22), off - 22) + ShiftRight(c, 32 - off)];
      && AllWords(u) && Rest(u, i + 1, off - 22) == Rest(s, i, off) / 1024
      && Words(u) + Scaled(d, 32 * i + off) == Words(s) + Scaled(c, 32 * i + off)
  {
    hide Two, Words, Scaled, ShiftRight, ShiftLeft;
    var x, z := s[i] % Two(off) + ShiftLeft(c, off), Scaled(ShiftRight(s[i + 1], off - 22), off - 22) + ShiftRight(c, 32 - off);
    var d := (ShiftRight(s[i], off) + ShiftLeft(s[i + 1], 32 - off)) % 1024;
    var t := s[i := x];
    ReplacedAcross(s[i], s[i + 1], off, c);
    RestAcross(s, i, off);
    WordsSet(s, i, x);
    WordsSet(t, i + 1, z);
    AtPlace(x + WORD * z, d, s[i] + WORD * s[i + 1], c, off, 32 * i);
    ScaledSum(i, x, z, x + WORD * z);
    ScaledSum(i, s[i], s[i + 1], s[i] + WORD * s[i + 1]);
    assert t[i + 1 := z][i + 2..] == s[i + 2..];
  }

  // ---- all declets ----

  lemma {:induction false} ShiftsAreTwo(n: nat)
    ensures Shifts(n) == Two(10 * n)
  {
    if n > 0 {
      ShiftsAreTwo(n - 1);
      TwoFacts();
      TwoAdd(10, 10 * (n - 1));
    }
  }

  /** The n low declets have been repaired, what is above them is as it was. */
  ghost predicate LowRepaired(v: nat, r: nat, n: nat) {
    r == Repaired(v, n) + AsBits(Quotient(v, Shifts(n)), n)
  }

  /** k declets of v are done; low is what they have become, and the rest is as it was. */
  ghost predicate Repairing(v: nat, w: seq<nat>, n: nat, k: nat, i: nat, off: nat, low: nat) {
    && k <= n && 32 * i + off == 10 * k && i < |w| && off <= 32 && AllWords(w)
    && Rest(w, i, off) == v / Shifts(k) && Words(w) == low + AsBits(v / Shifts(k), k)
    && Repaired(v, n) == low + AsBits(Repaired(v / Shifts(k), n - k), k)
  }

  lemma WholeRest(w: seq<nat>)
    requires w != []
    ensures Rest(w, 0, 0) == Words(w)
  {
    TwoFacts();
    hide Two;
  }

  lemma RepairBegins(w: seq<nat>, n: nat)
    requires w != [] && AllWords(w)
    ensures Repairing(Words(w), w, n, 0, 0, 0, 0)
  {
    hide Repaired;
    TwoFacts();
    WholeRest(w);
    assert Shifts(0) == 1;
  }

  lemma NextQuotient(v: nat, k: nat)
    ensures v / Shifts(k + 1) == v / Shifts(k) / 1024
  {
    hide Shifts;
    OneDecletUp(1, k + 1);
    NestedDivision(v, Shifts(k));
  }

  lemma Placed(d: nat, k: nat)
    ensures Scaled(d, 10 * k) == AsBits(d, k)
  {
    ShiftsAreTwo(k);
  }

  lemma DecletTaken(r: nat, d: nat, next: nat, k: nat)
    requires r == d + 1024 * next
    ensures AsBits(r, k) == AsBits(d, k) + AsBits(next, k + 1)
  {
    hide Shifts;
    OneDecletUp(1, k + 1);
    Spread(d, 1024 * next, Shifts(k));
    MulAssoc(next, 1024, Shifts(k));
  }

  lemma RepairGoesOn(v: nat, s: seq<nat>, w: seq<nat>, n: nat, k: nat, i: nat, off: nat, low: nat, i': nat, off': nat) returns (low': nat)
    requires Repairing(v, s, n, k, i, off, low) && k < n && AllWords(w) && i' < |w| && off' <= 32
    requires 32 * i' + off' == 32 * i + off + 10 && Rest(w, i', off') == Rest(s, i, off) / 1024
    requires var d := Rest(s, i, off) % 1024;
      Words(w) + Scaled(d, 32 * i + off) == Words(s) + Scaled(Encode(Decode(d)), 32 * i + off)
    ensures Repairing(v, w, n, k + 1, i', off', low')
  {
    hide Repaired, Words, Rest, Encode, Decode, Two, AllWords, Shifts, AsBits, Scaled;
    var r := Rest(s, i, off);
    var c := Encode(Decode(r % 1024));
    low' := low + AsBits(c, k);
    NextQuotient(v, k);
    RepairedStep(r, n - k);
    Placed(c, k);
    Placed(r % 1024, k);
    DecletTaken(r, r % 1024, r / 1024, k);
    DecletTaken(c + 1024 * Repaired(r / 1024, n - k - 1), c, Repaired(r / 1024, n - k - 1), k);
  }

  /** The repair loop: the n low declets become canonical, and what is above them stays. */
  method RepairDeclets(w: array<nat>, n: nat)
    requires 0 < n < 16 && 10 * n <= 32 * w.Length && AllWords(w[..])
    modifies w
    ensures AllWords(w[..]) && LowRepaired(old(Words(w[..])), Words(w[..]), n)
  {
    hide *;
    ghost var v, low := Words(w[..]), 0;
    var i: nat, off: nat, k := 0, 0, 0;
    RepairBegins(w[..], n);
    while k < n
      invariant 0 <= k <= n && i < w.Length && off <= 32 && 32 * i + off == 10 * k
      invariant Repairing(v, w[..], n, k, i, off, low)
    {
      ghost var s := w[..];
      RepairBounds(v, s, n, k, i, off, low);
      var i', off' := RepairDeclet(w, i, off);
      low := RepairGoesOn(v, s, w[..], n, k, i, off, low, i', off');
      i, off, k := i', off', k + 1;
    }
    RepairEnds(v, w[..], n, i, off, low);
  }

  lemma RepairBounds(v: nat, w: seq<nat>, n: nat, k: nat, i: nat, off: nat, low: nat)
    requires Repairing(v, w, n, k, i, off, low) && k < n < 16 && 10 * n <= 32 * |w|
    ensures AllWords(w) && off < 32 && (off + 10 > 32 ==> i + 1 < |w|)
  {
    hide Repaired, Words, Rest, Shifts;
  }

  lemma RepairEnds(v: nat, w: seq<nat>, n: nat, i: nat, off: nat, low: nat)
    requires Repairing(v, w, n, n, i, off, low)
    ensures AllWords(w) && LowRepaired(v, Words(w), n)
  {
    hide Words, Rest, Shifts;
    assert Repaired(v / Shifts(n), 0) == 0;
  }

  // ---- 64 bits ----

  /** The bit test for a canonical declet (CANONDPD). */
  predicate Accepted(d: nat) {
    !Redundant(SplitBits(d))
  }

  lemma AcceptedIsCanonical(d: nat)
    requires d < 1024
    ensures Accepted(d) <==> Encode(Decode(d)) == d
  {
    hide Encode, Decode, CodeOf, SplitBits, Redundant;
    CanonicalCodes(d);
    BitsSplit(d);
    BitsOfCode(d);
    CodeUnique(SplitBits(d), CodeOf(d));
  }

  /** Whether all five declets pass the test. */
  method AllAccepted(lo: nat, cont: nat) returns (ok: bool)
    requires lo < 0x1_0000_0000 && cont < 0x4_0000
    ensures ok <==> CanonicalDeclets(Words([lo, cont]), 5)
  {
    hide *;
    var w := [lo, cont];
    WholeRest(w);
    var d0, i, off := ReadDeclet(w, 0, 0);
    ghost var r1 := Rest(w, i, off);
    var d1, d2, d3, d4;
    d1, i, off := ReadDeclet(w, i, off);
    ghost var r2 := Rest(w, i, off);
    d2, i, off := ReadDeclet(w, i, off);
    ghost var r3 := Rest(w, i, off);
    d3, i, off := ReadDeclet(w, i, off);
    ghost var r4 := Rest(w, i, off);
    d4, i, off := ReadDeclet(w, i, off);
    Tested(Words(w), 4, d0);
    Tested(r1, 3, d1);
    Tested(r2, 2, d2);
    Tested(r3, 1, d3);
    Tested(r4, 0, d4);
    CanonicalStep(r4 / 1024, 0);
    ok := Accepted(d4) && Accepted(d3) && Accepted(d2) && Accepted(d1) && Accepted(d0);
  }

  lemma Tested(v: nat, n: nat, d: nat)
    requires d == v % 1024
    ensures CanonicalDeclets(v, n + 1) <==> Accepted(d) && CanonicalDeclets(v / 1024, n)
  {
    hide *;
    AcceptedIsCanonical(d);
    CanonicalStep(v, n + 1);
  }

  /** The loop on the two words of a decDouble: sign, combination field and exponent stay. */
  method RepairCoefficient(lo: nat, hi: nat) returns (lo': nat, hi': nat)
    requires lo < 0x1_0000_0000 && hi < 0x1_0000_0000
    ensures lo' < 0x1_0000_0000 && hi' < 0x1_0000_0000
    ensures SignBit(hi') == SignBit(hi) && CombField(hi') == CombField(hi) && ExpField(hi') == ExpField(hi)
    ensures Words([lo', ContField(hi')]) == Repaired(Words([lo, ContField(hi)]), 5)
  {
    var w := new nat[2];
    w[0], w[1] := lo, hi;
    hide Repaired, Words, SignBit, CombField, ExpField, ContField, LowRepaired;
    assert w[..] == [lo, hi];
    RepairDeclets(w, 5);
    lo', hi' := w[0], w[1];
    assert w[..] == [lo', hi'];
    AfterRepair(lo, hi, lo', hi');
  }

  lemma AfterRepair(lo: nat, hi: nat, lo': nat, hi': nat)
    requires lo < 0x1_0000_0000 && hi < 0x1_0000_0000 && lo' < 0x1_0000_0000 && hi' < 0x1_0000_0000
    requires LowRepaired(Words([lo, hi]), Words([lo', hi']), 5)
    ensures SignBit(hi') == SignBit(hi) && CombField(hi') == CombField(hi) && ExpField(hi') == ExpField(hi)
    ensures Words([lo', ContField(hi')]) == Repaired(Words([lo, ContField(hi)]), 5)
  {
    hide *;
    var sign, comb, low, cont := SignBit(hi), CombField(hi), ExpField(hi), ContField(hi);
    var top, v := low + 256 * comb + 8192 * sign, Words([lo, cont]);
    HighUnique(hi);
    TopOfHigh(sign, comb, low, cont);
    WithTop(lo, cont, top);
    TopShift(top);
    RepairedLow(v, 5, top);
    RepairedMeans(v, 5);
    AboveLow(v, top, Words([lo', hi']));
    SplitTop(lo', hi', Repaired(v, 5), top);
    TopOfHigh(sign, comb, low, hi' % 0x4_0000);
    HighFields(sign, comb, low, hi' % 0x4_0000);
  }

  lemma TopOfHigh(sign: nat, comb: nat, low: nat, cont: nat)
    ensures HighWord(sign, comb, low, cont) == cont + 0x4_0000 * (low + 256 * comb + 8192 * sign)
  {
  }

  lemma AboveLow(v: nat, top: nat, r: nat)
    requires v < TOP && LowRepaired(v + TOP * top, r, 5)
    ensures r == Repaired(v + AsBits(top, 5), 5) + top * TOP
  {
    hide Repaired, Shifts;
    TopShift(top);
    DivModUnique(v + TOP * top, TOP, top, v);
  }

  /** The fields of a canonical form: declets repaired, and of a NaN's exponent only the bit that tells its kind. */
  lemma CanonicalForm(lo: nat, hi: nat, lo': nat, hi': nat)
    requires hi < 0x1_0000_0000 && SignBit(hi') == SignBit(hi) && CombField(hi') == CombField(hi)
    requires if IsSpecial(hi) then CombMsd(CombField(hi)) != 0 && ExpField(hi') == (if ExpField(hi) >= 128 then 128 else 0)
      else ExpField(hi') == ExpField(hi)
    requires Words([lo', ContField(hi')]) == Repaired(Words([lo, ContField(hi)]), 5)
    ensures Canonical64(lo', hi') && Denoted(lo', hi') == Denoted(lo, hi)
  {
    hide Repaired, Words, Number, CanonicalDeclets, SignBit, CombField, ExpField, ContField, CombExp, CombMsd, Sixteen;
    RepairedMeans(Words([lo, ContField(hi)]), 5);
  }

  lemma CleanInfinity(lo: nat, hi: nat, hi': nat)
    requires hi < 0x1_0000_0000 && IsSpecial(hi) && CombMsd(CombField(hi)) == 0
    requires SignBit(hi') == SignBit(hi) && CombField(hi') == 30 && ExpField(hi') == 0 && ContField(hi') == 0
    ensures Canonical64(0, hi') && Denoted(0, hi') == Denoted(lo, hi)
  {
    hide Words, Number, CanonicalDeclets, SignBit, CombField, ExpField, ContField;
    assert CombExp(30) == 3 && CombMsd(30) == 0;
    ZeroWords();
  }

  lemma NothingToRepair(lo: nat, hi: nat)
    requires lo < 0x1_0000_0000 && hi < 0x1_0000_0000 && CanonicalDeclets(Words([lo, ContField(hi)]), 5)
    ensures Repaired(Words([lo, ContField(hi)]), 5) == Words([lo, ContField(hi)])
  {
    hide *;
    HighUnique(hi);
    LowBits(lo, ContField(hi));
    RepairedKeeps(Words([lo, ContField(hi)]), 5);
  }

  lemma SpecialByComb(hi: nat)
    ensures IsSpecial(hi) <==> CombExp(CombField(hi)) == 3
  {
  }

  method MakeCanonical(lo: nat, hi: nat) returns (lo': nat, hi': nat)
    requires lo < 0x1_0000_0000 && hi < 0x1_0000_0000
    ensures lo' < 0x1_0000_0000 && hi' < 0x1_0000_0000 && Canonical64(lo', hi') && Denoted(lo', hi') == Denoted(lo, hi)
  {
    hide *;
    var sign, comb, low, cont := TakeHigh(hi);
    SpecialByComb(hi);
    lo', hi' := lo, hi;
    if CombExp(comb) == 3 {
      if CombMsd(comb) == 0 {
        lo', hi' := 0, HighWord(sign, 30, 0, 0);
        HighFields(sign, 30, 0, 0);
        CleanInfinity(lo, hi, hi');
        return;
      }
      low := if low >= 128 then 128 else 0;
      hi' := HighWord(sign, comb, low, cont);
      HighFields(sign, comb, low, cont);
      if lo == 0 && cont == 0 {
        ZeroWords();
        NothingToRepair(lo, hi);
        CanonicalForm(lo, hi, lo', hi');
        return;
      }
    }
    var ok := AllAccepted(lo, cont);
    if ok {
      NothingToRepair(lo, hi);
    } else {
      lo', hi' := RepairCoefficient(lo, hi');
    }
    CanonicalForm(lo, hi, lo', hi');
  }

  /** decCanonical for a decDouble: the canonical words of the same datum, which are the words themselves exactly
      when they are canonical. */
  method DecCanonical(lo: nat, hi: nat) returns (lo': nat, hi': nat)
    requires lo < 0x1_0000_0000 && hi < 0x1_0000_0000
    ensures lo' < 0x1_0000_0000 && hi' < 0x1_0000_0000 && Canonical64(lo', hi') && Denoted(lo', hi') == Denoted(lo, hi)
    ensures Canonical64(lo, hi) <==> lo' == lo && hi' == hi
  {
    hide *;
    lo', hi' := MakeCanonical(lo, hi);
    if Canonical64(lo, hi) {
      WordsDetermined(lo, hi, lo', hi');
    }
  }
}
