/** Coefficient layouts of decFloatAdd: the overlapped addition by words, and the gap. */
module AddLayout {
  import opened Powers
  import opened Digits
  import opened Formats
  import opened Swar
  import opened DigitSums
  import opened Complement
  import opened Coefficients
  import opened Sums

  /** Zeros in front of the coefficient so that its last digit ends a word. */
  function Prefix(f: Format): nat {
    (4 - f.pmax % 4) % 4
  }

  /** Digits added by words: the prefix and the coefficient. */
  function Width(f: Format): nat {
    Prefix(f) + f.pmax
  }

  lemma WidthFacts(f: Format)
    requires f.Valid()
    ensures Width(f) % 4 == 0 && Width(f) >= 4 && f.pmax <= Width(f) <= f.pmax + 3
  {
  }

  /** Dividing the addition at a word boundary. */
  lemma WordStep(a: nat, b: nat, r: nat, hi: nat, lo: nat, sum: nat, n: nat, k0: nat, k: nat, k': nat)
    requires r + CarryValue(k, n) == lo + b + k0 && k <= 1 && k' <= 1
    requires sum + 10000 * k' == hi + a + k
    ensures Shifted(sum, n) + r + CarryValue(k', n + 4) == (Shifted(hi, n) + lo) + (Shifted(a, n) + b) + k0
  {
    Pow10Add(n, 4);
    assert Pow10(4) == 10000;
    hide Pow10;
    WordStepAt(sum, hi, a, Pow10(n), k, k');
  }

  lemma DecJoin(s: seq<nat>, t: seq<nat>)
    ensures Dec(s + t) == Shifted(Dec(s), |t|) + Dec(t)
  {
    DecAppend(s, t);
  }

  lemma WordStepAt(sum: nat, hi: nat, a: nat, p: nat, k: nat, k': nat)
    requires sum + 10000 * k' == hi + a + k && k <= 1 && k' <= 1
    ensures sum * p + (if k' == 0 then 0 else p * 10000) == hi * p + a * p + if k == 0 then 0 else p
  {
    assert (hi + a + k) * p == hi * p + a * p + k * p;
    assert (sum + 10000 * k') * p == sum * p + 10000 * k' * p;
  }

  /** The digits from ut to the right are added. */
  ghost predicate AddedFrom(acc: seq<nat>, buf: seq<nat>, was: seq<nat>, w: nat, ut: nat, carry: bv32, k: nat, k0: nat)
    requires 4 + w <= |acc| == |was| && 4 + w <= |buf| && ut <= 4 + w
  {
    && k <= 1 && carry == Bits(k) << 24 && AllDigits(acc[ut..4 + w])
    && Dec(acc[ut..4 + w]) + CarryValue(k, 4 + w - ut) == Dec(was[ut..4 + w]) + Dec(buf[ut..4 + w]) + k0
    && forall i :: 0 <= i < |acc| && !(ut <= i < 4 + w) ==> acc[i] == was[i]
  }

  /** A word's digits put in front of those added before. */
  lemma WordInFront(d: seq<nat>, tail: seq<nat>, a: seq<nat>, wt: seq<nat>, b: seq<nat>, bt: seq<nat>, k0: nat, k: nat, k': nat)
    requires |d| == |a| == |b| == 4 && |tail| == |wt| == |bt| && AllDigits(d) && AllDigits(tail) && k <= 1 && k' <= 1
    requires Dec(d) + 10000 * k' == Dec(a) + Dec(b) + k
    requires Dec(tail) + CarryValue(k, |tail|) == Dec(wt) + Dec(bt) + k0
    ensures AllDigits(d + tail) && Dec(d + tail) + CarryValue(k', |tail| + 4) == Dec(a + wt) + Dec(b + bt) + k0
  {
    hide *;
    DigitsJoin(d, tail);
    DecJoin(d, tail);
    DecJoin(a, wt);
    DecJoin(b, bt);
    WordStep(Dec(b), Dec(bt), Dec(tail), Dec(a), Dec(wt), Dec(d), |tail|, k0, k, k');
  }

  /** What a word's addition changes. */
  ghost predicate WordAdded(acc: seq<nat>, acc': seq<nat>, buf: seq<nat>, ut: nat, k: nat, k': nat)
    requires ut + 4 <= |acc| == |acc'| && ut + 4 <= |buf|
  {
    && AllDigits(acc'[ut..ut + 4])
    && Dec(acc'[ut..ut + 4]) + 10000 * k' == Dec(acc[ut..ut + 4]) + Dec(buf[ut..ut + 4]) + k
    && forall i :: 0 <= i < |acc| && !(ut <= i < ut + 4) ==> acc'[i] == acc[i]
  }

  lemma FrameAfter(acc: seq<nat>, acc': seq<nat>, was: seq<nat>, ut: nat, end: nat)
    requires ut + 4 <= end <= |acc| == |was| == |acc'|
    requires forall i :: 0 <= i < |acc| && !(ut + 4 <= i < end) ==> acc[i] == was[i]
    requires forall i :: 0 <= i < |acc| && !(ut <= i < ut + 4) ==> acc'[i] == acc[i]
    ensures acc[ut..ut + 4] == was[ut..ut + 4] && acc'[ut + 4..end] == acc[ut + 4..end]
    ensures forall i :: 0 <= i < |acc| && !(ut <= i < end) ==> acc'[i] == was[i]
  {
  }

  lemma OneMoreWord(acc: seq<nat>, acc': seq<nat>, buf: seq<nat>, was: seq<nat>, w: nat, ut: nat,
                    carry: bv32, k: nat, carry': bv32, k': nat, k0: nat)
    requires 4 + w <= |acc| == |was| == |acc'| && 4 + w <= |buf| && 4 <= ut <= w
    requires AddedFrom(acc[..], buf[..], was, w, ut + 4, carry, k, k0) && WordAdded(acc, acc', buf, ut, k, k')
    requires k' <= 1 && carry' == Bits(k') << 24
    ensures AddedFrom(acc', buf, was, w, ut, carry', k', k0)
  {
    hide Dec, Bits, CarryValue, AllDigits;
    FrameAfter(acc, acc', was, ut, 4 + w);
    var a, wt, b, bt := was[ut..ut + 4], was[ut + 4..4 + w], buf[ut..ut + 4], buf[ut + 4..4 + w];
    var d, tail := acc'[ut..ut + 4], acc[ut + 4..4 + w];
    WordInFront(d, tail, a, wt, b, bt, k0, k, k');
    Slices(acc', ut, ut + 4, 4 + w);
    Slices(was, ut, ut + 4, 4 + w);
    Slices(buf, ut, ut + 4, 4 + w);
  }

  /** One word of the addition. */
  method RegionStep(acc: array<nat>, buf: array<nat>, w: nat, ut: nat, carry: bv32, ghost k: nat, ghost k0: nat, ghost was: seq<nat>)
    returns (carry': bv32, ghost k': nat)
    requires acc != buf && 4 + w <= acc.Length == |was| && 4 + w <= buf.Length && 4 <= ut <= w
    requires AllDigits(was[4..4 + w]) && AllDigits(buf[4..4 + w])
    requires AddedFrom(acc[..], buf[..], was, w, ut + 4, carry, k, k0)
    modifies acc
    ensures AddedFrom(acc[..], buf[..], was, w, ut, carry', k', k0)
  {
    ghost var before := acc[..];
    assert acc[ut..ut + 4] == was[ut..ut + 4];
    DigitsWithin(was, 4, 4 + w, ut, ut + 4);
    DigitsWithin(buf[..], 4, 4 + w, ut, ut + 4);
    assert k <= 1 && carry == Bits(k) << 24;
    hide Dec, Bits, CarryValue, AllDigits, AddedFrom;
    carry', k' := AddWord(acc, ut, buf, ut, carry, k);
    OneMoreWord(before, acc[..], buf[..], was, w, ut, carry, k, carry', k', k0);
  }

  lemma RegionBegins(acc: seq<nat>, buf: seq<nat>, w: nat, carry: bv32, k: nat)
    requires 4 + w <= |acc| && 4 + w <= |buf| && k <= 1 && carry == Bits(k) << 24
    ensures AddedFrom(acc, buf, acc, w, w + 4, carry, k, k)
  {
    hide Bits;
    assert acc[4 + w..4 + w] == [] && buf[4 + w..4 + w] == [] && Pow10(0) == 1;
  }

  lemma RegionDone(acc: array<nat>, buf: array<nat>, was: seq<nat>, w: nat, carry: bv32, k: nat, k0: nat)
    requires 4 + w <= acc.Length == |was| && 4 + w <= buf.Length && AddedFrom(acc[..], buf[..], was, w, 4, carry, k, k0)
    ensures k <= 1 && carry == Bits(k) << 24 && AllDigits(acc[4..4 + w])
    ensures Dec(acc[4..4 + w]) + CarryValue(k, w) == Dec(was[4..4 + w]) + Dec(buf[4..4 + w]) + k0
    ensures forall i :: 0 <= i < acc.Length && !(4 <= i < 4 + w) ==> acc[i] == was[i]
  {
  }

  method AddWords(acc: array<nat>, buf: array<nat>, w: nat, carry0: bv32, ghost k0: nat) returns (carry: bv32, ghost k: nat)
    requires acc != buf && w % 4 == 0 && 4 + w <= acc.Length && 4 + w <= buf.Length
    requires AllDigits(acc[4..4 + w]) && AllDigits(buf[4..4 + w]) && k0 <= 1 && carry0 == Bits(k0) << 24
    modifies acc
    ensures AddedFrom(acc[..], buf[..], old(acc[..]), w, 4, carry, k, k0)
  {
    hide *;
    carry, k := carry0, k0;
    var ut: int := w;
    ghost var was := acc[..];
    RegionBegins(was, buf[..], w, carry, k);
    while ut >= 4
      invariant 0 <= ut <= w && ut % 4 == 0 && AddedFrom(acc[..], buf[..], was, w, ut + 4, carry, k, k0)
    {
      carry, k := RegionStep(acc, buf, w, ut, carry, k, k0, was);
      ut := ut - 4;
    }
  }

  /** Adds the w digits from buf[4] to those from acc[4], a word at a time from the right. */
  method AddRegion(acc: array<nat>, buf: array<nat>, w: nat, carry0: bv32, ghost k0: nat) returns (carry: bv32, ghost k: nat)
    requires acc != buf && w % 4 == 0 && 4 + w <= acc.Length && 4 + w <= buf.Length
    requires AllDigits(acc[4..4 + w]) && AllDigits(buf[4..4 + w]) && k0 <= 1 && carry0 == Bits(k0) << 24
    modifies acc
    ensures k <= 1 && carry == Bits(k) << 24 && AllDigits(acc[4..4 + w])
    ensures Dec(acc[4..4 + w]) + CarryValue(k, w) == old(Dec(acc[4..4 + w])) + Dec(buf[4..4 + w]) + k0
    ensures forall i :: 0 <= i < acc.Length && !(4 <= i < 4 + w) ==> acc[i] == old(acc[i])
  {
    hide *;
    ghost var was := acc[..];
    carry, k := AddWords(acc, buf, w, carry0, k0);
    RegionDone(acc, buf, was, w, carry, k, k0);
  }

  /** Zeros, in front of a coefficient or in a gap. */
  method LayZeros(acc: array<nat>, from: nat, gap: nat)
    requires from + gap <= acc.Length
    modifies acc
    ensures AllOf(acc[from..from + gap], 0) && forall i :: 0 <= i < from ==> acc[i] == old(acc[i])
  {
    for t := from to from + gap
      invariant AllOf(acc[from..t], 0) && forall i :: 0 <= i < from ==> acc[i] == old(acc[i])
    {
      acc[t] := 0;
    }
  }

  lemma PrefixDigits(s: seq<nat>, z: nat)
    requires z <= |s| && AllOf(s[..z], 0) && AllDigits(s[z..])
    ensures AllDigits(s)
  {
    forall i | 0 <= i < |s|
      ensures s[i] <= 9
    {
      if i < z { assert s[i] == s[..z][i]; } else { assert s[i] == s[z..][i - z]; }
    }
  }

  /** A coefficient with z zeros in front. */
  method LayPadded(coef: nat, n: nat, buf: array<nat>, from: nat, z: nat)
    requires coef < Pow10(n) && from + z + n <= buf.Length
    modifies buf
    ensures AllDigits(buf[from..from + z + n]) && Dec(buf[from..from + z + n]) == coef
  {
    hide Dec, Pow10, AllDigits, AllOf;
    LayZeros(buf, from, z);
    ghost var was := buf[..];
    GetCoeff(coef, n, buf, from + z);
    SamePart(was, buf[..], from, from + z);
    DecPadded(buf[..], from, from + z, from + z + n);
  }

  /** The higher operand at the start of the accumulator, inverted if the signs differ. */
  method LayHigh(f: Format, acc: array<nat>, coef: nat, diffsign: bool)
    requires f.Valid() && coef < Pow10(f.pmax) && 4 + Width(f) <= acc.Length
    modifies acc
    ensures AllDigits(acc[4..4 + Width(f)])
    ensures Dec(acc[4..4 + Width(f)]) == if diffsign then Pow10(Width(f)) - 1 - coef else coef
  {
    hide Dec, Pow10, Prefix, AllDigits;
    LayPadded(coef, f.pmax, acc, 4, Prefix(f));
    if diffsign {
      NinesValue(acc[4..4 + Width(f)]);
      Invert(acc, 4, 3 + Width(f));
    }
  }

  /** The digits that result from the addition, to the left of and including lsd; p of them lie
      to the right of the higher operand's last digit. */
  ghost predicate Total(w: nat, s: seq<nat>, carry: nat, diffsign: bool, h: nat, l: nat, p: nat) {
    && AllDigits(s) && |s| == w + p && carry <= 1
    && Dec(s) + CarryValue(carry, |s|) == if diffsign then Pow10(|s|) - Shifted(h, p) + l else Shifted(h, p) + l
  }

  /** Appending what lies to the right. */
  lemma TotalOf(w: nat, main: seq<nat>, tail: seq<nat>, carry: nat, diffsign: bool, h: nat, l: nat, l1: nat)
    requires |main| == w && AllDigits(main) && AllDigits(tail) && carry <= 1 && l == l1 * Pow10(|tail|) + Dec(tail)
    requires Dec(main) + CarryValue(carry, w) == if diffsign then Pow10(w) - h + l1 else h + l1
    ensures Total(w, main + tail, carry, diffsign, h, l, |tail|)
  {
    var p := |tail|;
    hide Dec, Pow10;
    DecAppend(main, tail);
    Pow10Add(w, p);
    TotalArith(Dec(main), Pow10(p), Dec(tail), carry, Pow10(w), h, l1, diffsign);
  }

  lemma TotalArith(main: nat, p: nat, tail: nat, carry: nat, W: nat, h: nat, l1: nat, diffsign: bool)
    requires main + (if carry == 0 then 0 else W) == if diffsign then W - h + l1 else h + l1
    ensures main * p + tail + (if carry == 0 then 0 else W * p) ==
      if diffsign then W * p - h * p + (l1 * p + tail) else h * p + (l1 * p + tail)
  {
    if diffsign {
      assert (W - h + l1) * p == W * p - h * p + l1 * p;
    } else {
      assert (h + l1) * p == h * p + l1 * p;
    }
    if carry != 0 {
      assert (main + W) * p == main * p + W * p;
    }
  }

  // ---- no overlap: a gap ----

  /** Completes the ten's complement at once, since nothing is added to the higher operand. */
  method CompleteHigh(acc: array<nat>, w: nat, ghost h: nat)
    requires w > 0 && 4 + w <= acc.Length && AllDigits(acc[4..4 + w]) && h > 0
    requires Dec(acc[4..4 + w]) == Pow10(w) - 1 - h
    modifies acc
    ensures AllDigits(acc[4..4 + w]) && Dec(acc[4..4 + w]) == Pow10(w) - h
  {
    hide Dec, Pow10;
    if AllOf(acc[4..4 + w], 9) {
      DecNines(acc[4..4 + w]);
    }
    AddOne(acc, 4, 3 + w);
  }

  /** The lower coefficient, or one sticky digit in its place. */
  method LayLow(f: Format, acc: array<nat>, ub: nat, coef: nat, sticky: bool) returns (lsd: nat, ghost l: nat)
    requires f.Valid() && coef < Pow10(f.pmax) && ub + f.pmax <= acc.Length
    modifies acc
    ensures ub <= lsd < acc.Length && AllDigits(acc[ub..lsd + 1]) && Dec(acc[ub..lsd + 1]) == l
    ensures if sticky then lsd == ub && l == (if coef == 0 then 0 else 1) else lsd == ub + f.pmax - 1 && l == coef
    ensures forall i :: 0 <= i < ub ==> acc[i] == old(acc[i])
  {
    hide Dec, Pow10;
    if sticky {
      acc[ub] := if coef != 0 then 1 else 0;
      l := acc[ub];
      lsd := ub;
      assert acc[ub..lsd + 1] == [l];
      DecOne(l);
    } else {
      GetCoeff(coef, f.pmax, acc, ub);
      l := coef;
      lsd := ub + f.pmax - 1;
    }
  }

  lemma JoinGap(w: nat, main: seq<nat>, zeros: seq<nat>, low: seq<nat>, diffsign: bool, h: nat)
    requires |main| == w && AllDigits(main) && AllOf(zeros, 0) && AllDigits(low)
    requires Dec(main) == if diffsign then Pow10(w) - h else h
    ensures Total(w, main + zeros + low, 0, diffsign, h, Dec(low), |zeros| + |low|)
  {
    hide Dec, Pow10;
    var tail := zeros + low;
    assert tail[..|zeros|] == zeros && tail[|zeros|..] == low;
    DecLeading(tail, |zeros|);
    PrefixDigits(tail, |zeros|);
    assert main + zeros + low == main + tail;
    TotalOf(w, main, tail, 0, diffsign, h, Dec(low), 0);
  }

  /** Zeros for the gap, then the whole lower coefficient or, too far away, one sticky digit. */
  method LayGap(f: Format, acc: array<nat>, gap0: nat, coef: nat, diffsign: bool, ghost h: nat)
    returns (lsd: nat, ghost l: nat)
    requires f.Valid() && coef < Pow10(f.pmax) && acc.Length >= 4 + 2 + 3 * f.pmax + 8 && AllDigits(acc[4..4 + Width(f)])
    requires Dec(acc[4..4 + Width(f)]) == if diffsign then Pow10(Width(f)) - h else h
    modifies acc
    ensures var w := Width(f);
      && 4 + w <= lsd < acc.Length
      && (if gap0 > f.pmax then lsd == 3 + w + f.pmax + 1 && l == (if coef == 0 then 0 else 1)
          else lsd == 3 + w + gap0 + f.pmax && l == coef)
      && Total(w, acc[4..lsd + 1], 0, diffsign, h, l, lsd - (3 + w))
  {
    var w := Width(f);
    var gap := if gap0 > f.pmax then f.pmax else gap0;
    hide *;
    WidthFacts(f);
    ghost var was := acc[..];
    LayZeros(acc, 4 + w, gap);
    SamePart(was, acc[..], 4, 4 + w);
    var ub := 4 + w + gap;
    ghost var laid := acc[..];
    lsd, l := LayLow(f, acc, ub, coef, gap0 > f.pmax);
    GapLaid(laid, acc[..], w, ub, lsd, diffsign, h);
  }

  lemma GapLaid(laid: seq<nat>, s: seq<nat>, w: nat, ub: nat, lsd: nat, diffsign: bool, h: nat)
    requires 4 + w <= ub <= lsd < |s| == |laid| && (forall i :: 0 <= i < ub ==> s[i] == laid[i])
    requires AllDigits(laid[4..4 + w]) && AllOf(laid[4 + w..ub], 0) && AllDigits(s[ub..lsd + 1])
    requires Dec(laid[4..4 + w]) == if diffsign then Pow10(w) - h else h
    ensures Total(w, s[4..lsd + 1], 0, diffsign, h, Dec(s[ub..lsd + 1]), lsd - (3 + w))
  {
    hide Dec, Pow10, AllDigits, AllOf, Total;
    SamePart(laid, s, 4, 4 + w);
    SamePart(laid, s, 4 + w, ub);
    Slices(s, 4, 4 + w, ub);
    Slices(s, 4, ub, lsd + 1);
    JoinGap(w, s[4..4 + w], s[4 + w..ub], s[ub..lsd + 1], diffsign, h);
  }

  // ---- overlapping coefficients ----

  /** The lower coefficient in buf, p places to the right, with zeros in front. */
  method LayBuf(f: Format, buf: array<nat>, coef: nat, p: nat)
    requires f.Valid() && coef < Pow10(f.pmax) && p < f.pmax && 4 + Width(f) + p <= buf.Length
    modifies buf
    ensures AllDigits(buf[4..4 + Width(f) + p]) && Dec(buf[4..4 + Width(f) + p]) == coef
  {
    hide Dec, Pow10, AllDigits;
    LayPadded(coef, f.pmax, buf, 4, Prefix(f) + p);
  }

  /** Moves the tail of the lower operand across. */
  method MoveTail(acc: array<nat>, buf: array<nat>, from: nat, p: nat)
    requires acc != buf && from + p <= acc.Length && from + p <= buf.Length
    modifies acc
    ensures acc[from..from + p] == buf[from..from + p] && forall i :: 0 <= i < from ==> acc[i] == old(acc[i])
  {
    for i := 0 to p
      invariant acc[from..from + i] == buf[from..from + i] && forall k :: 0 <= k < from ==> acc[k] == old(acc[k])
    {
      acc[from + i] := buf[from + i];
    }
  }

  /** Lays the lower coefficient out under the higher one and moves its tail across. */
  method LayUnder(f: Format, acc: array<nat>, p: nat, coef: nat) returns (buf: array<nat>, ghost top: seq<nat>, ghost tail: seq<nat>)
    requires f.Valid() && coef < Pow10(f.pmax) && p < f.pmax && acc.Length >= 4 + 2 + 3 * f.pmax + 8
    modifies acc
    ensures fresh(buf) && 4 + Width(f) + p <= acc.Length && 4 + Width(f) <= buf.Length
    ensures top == buf[4..4 + Width(f)] && tail == acc[4 + Width(f)..4 + Width(f) + p]
    ensures AllDigits(top) && AllDigits(tail) && coef == Dec(top) * Pow10(p) + Dec(tail)
    ensures forall i :: 0 <= i < 4 + Width(f) ==> acc[i] == old(acc[i])
  {
    hide *;
    var w := Width(f);
    WidthFacts(f);
    buf := new nat[4 + 2 + 2 * f.pmax + 4];
    LayBuf(f, buf, coef, p);
    MoveTail(acc, buf, 4 + w, p);
    top, tail := buf[4..4 + w], acc[4 + w..4 + w + p];
    DigitsWithin(buf[..], 4, 4 + w + p, 4, 4 + w);
    DigitsWithin(buf[..], 4, 4 + w + p, 4 + w, 4 + w + p);
    Slices(buf[..], 4, 4 + w, 4 + w + p);
    DecAppend(top, tail);
  }

  /** The overlapped addition. */
  method AddOverlap(f: Format, acc: array<nat>, p: nat, coef: nat, diffsign: bool, ghost h: nat)
    returns (lsd: nat, carry: bv32, ghost k: nat)
    requires f.Valid() && coef < Pow10(f.pmax) && p < f.pmax && acc.Length >= 4 + 2 + 3 * f.pmax + 8
    requires AllDigits(acc[4..4 + Width(f)])
    requires Dec(acc[4..4 + Width(f)]) == if diffsign then Pow10(Width(f)) - 1 - h else h
    modifies acc
    ensures lsd == 3 + Width(f) + p < acc.Length && k <= 1 && carry == Bits(k) << 24
    ensures Total(Width(f), acc[4..lsd + 1], k, diffsign, h, coef, p)
  {
    hide *;
    var w := Width(f);
    WidthFacts(f);
    ghost var was := acc[..];
    var buf;
    ghost var top, tail;
    buf, top, tail := LayUnder(f, acc, p, coef);
    SamePart(was, acc[..], 4, 4 + w);
    ghost var laid := acc[..];
    var carry0: bv32 := if diffsign then 0x0100_0000 else 0;
    ghost var k0 := if diffsign then 1 else 0;
    CarryWord(k0);
    carry, k := AddRegion(acc, buf, w, carry0, k0);
    lsd := 3 + w + p;
    SamePart(laid, acc[..], 4 + w, 4 + w + p);
    Slices(acc[..], 4, 4 + w, lsd + 1);
    TotalOf(w, acc[4..4 + w], tail, k, diffsign, h, coef, Dec(top));
  }
}
