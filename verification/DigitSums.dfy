/** Adding two aligned digit strings from the right, in place (the core of decFloatFMA). */
module DigitSums {
  import opened Powers
  import opened Digits

  function Fill(n: nat, d: nat): (s: seq<nat>)
    ensures |s| == n && AllOf(s, d)
  {
    seq(n, _ => d)
  }

  /** The higher operand, padded with p zeros on the right and with pad digits on the left. */
  function HiString(hs: seq<nat>, p: nat, pad: nat, n: nat): (s: seq<nat>)
    requires |hs| + p <= n
    ensures |s| == n
  {
    Fill(n - p - |hs|, pad) + hs + Fill(p, 0)
  }

  function LoString(ls: seq<nat>, n: nat): (s: seq<nat>)
    requires |ls| <= n
    ensures |s| == n
  {
    Fill(n - |ls|, 0) + ls
  }

  /** What a carry out of n digits is worth. */
  function CarryValue(carry: nat, n: nat): nat {
    if carry == 0 then 0 else Pow10(n)
  }

  /** The digits written so far, with the carry on top, are the sum of the low ends of both strings. */
  ghost predicate Summed(tail: seq<nat>, carry: nat, hv: seq<nat>, lv: seq<nat>, c: nat) {
    && |tail| <= |hv| == |lv| && AllDigits(tail) && carry <= 1
    && Dec(tail) + CarryValue(carry, |tail|) == Dec(hv[|hv| - |tail|..]) + Dec(lv[|lv| - |tail|..]) + c
  }

  lemma DecCons(d: nat, s: seq<nat>)
    ensures Dec([d] + s) == d * Pow10(|s|) + Dec(s)
  {
    DecAppend([d], s);
    DecOne(d);
  }

  /** One more digit: the two digits and the carry make a digit and a carry. */
  lemma AddStep(tail: seq<nat>, carry: nat, hv: seq<nat>, lv: seq<nat>, c: nat, d: nat, carry': nat)
    requires Summed(tail, carry, hv, lv, c) && |tail| < |hv| && d <= 9 && carry' <= 1
    requires carry + hv[|hv| - 1 - |tail|] + lv[|lv| - 1 - |tail|] == d + 10 * carry'
    ensures Summed([d] + tail, carry', hv, lv, c)
  {
    hide Dec, Pow10;
    var n, t := |hv|, |tail|;
    var a, b := hv[n - 1 - t], lv[n - 1 - t];
    assert hv[n - 1 - t..] == [a] + hv[n - t..];
    assert lv[n - 1 - t..] == [b] + lv[n - t..];
    Pow10Next(t);
    DecCons(a, hv[n - t..]);
    DecCons(b, lv[n - t..]);
    DecCons(d, tail);
    CarryDigit(a, b, d, carry, carry', Pow10(t));
  }

  lemma CarryDigit(a: nat, b: nat, d: nat, carry: nat, carry': nat, p: nat)
    requires carry + a + b == d + 10 * carry'
    requires carry <= 1 && carry' <= 1
    ensures d * p + (if carry' == 0 then 0 else 10 * p) == a * p + b * p + if carry == 0 then 0 else p
  {
    assert (carry + a + b) * p == (d + 10 * carry') * p;
    MulAssoc(carry', 10, p);
  }

  // ---- the low end, where only the lower operand has digits ----

  /** The unread digits of an operand are still where they were. */
  predicate Unread(buf: array<nat>, msd: nat, u: int, s: seq<nat>)
    reads buf
  {
    msd - 1 <= u < buf.Length && u - msd < |s| && forall i :: msd <= i <= u ==> buf[i] == s[i - msd]
  }

  /** buf from i on is the right end of s, with zeros to the left of it. */
  predicate RightEnd(buf: seq<nat>, from: int, s: seq<nat>) {
    0 <= from <= |buf| && forall i :: from <= i < |buf| ==> buf[i] == if i >= |buf| - |s| then s[i - (|buf| - |s|)] else 0
  }

  lemma NothingCopied(buf: seq<nat>, s: seq<nat>)
    ensures RightEnd(buf, |buf|, s)
  {
  }

  lemma MoreCopied(was: seq<nat>, now: seq<nat>, from: nat, end: nat, s: seq<nat>)
    requires |was| - |s| <= from <= end <= |was| == |now| && RightEnd(was, end, s)
    requires forall i :: end <= i < |was| ==> now[i] == was[i]
    requires forall i :: from <= i < end ==> now[i] == s[i - (|was| - |s|)]
    ensures RightEnd(now, from, s)
  {
  }

  /** Copies four digits to the left of those already copied. */
  method CopyWord(acc: array<nat>, lbuf: array<nat>, lmsd: nat, ul: nat, ub: nat, ghost ls: seq<nat>)
    requires lmsd + 3 <= ul && 3 <= ub < acc.Length && acc.Length - 1 - ub == lmsd + |ls| - 1 - ul && (lbuf == acc ==> ul < ub - 3)
    requires RightEnd(acc[..], ub + 1, ls) && Unread(lbuf, lmsd, ul, ls)
    modifies acc
    ensures RightEnd(acc[..], ub - 3, ls) && Unread(lbuf, lmsd, ul - 4, ls)
    ensures forall i :: 0 <= i <= ub - 4 ==> acc[i] == old(acc[i])
  {
    hide RightEnd;
    ghost var was := acc[..];
    acc[ub - 3], acc[ub - 2], acc[ub - 1], acc[ub] := lbuf[ul - 3], lbuf[ul - 2], lbuf[ul - 1], lbuf[ul];
    MoreCopied(was, acc[..], ub - 3, ub + 1, ls);
  }

  method CopyDigit(acc: array<nat>, lbuf: array<nat>, lmsd: nat, ul: nat, ub: nat, ghost ls: seq<nat>)
    requires lmsd <= ul && ub < acc.Length && acc.Length - 1 - ub == lmsd + |ls| - 1 - ul && (lbuf == acc ==> ul < ub)
    requires RightEnd(acc[..], ub + 1, ls) && Unread(lbuf, lmsd, ul, ls)
    modifies acc
    ensures RightEnd(acc[..], ub, ls) && Unread(lbuf, lmsd, ul - 1, ls)
    ensures forall i :: 0 <= i <= ub - 1 ==> acc[i] == old(acc[i])
  {
    hide RightEnd;
    ghost var was := acc[..];
    acc[ub] := lbuf[ul];
    MoreCopied(was, acc[..], ub, ub + 1, ls);
  }

  /** Copies digits to the right end until they, or the places for them, are used up. */
  method CopyLow(acc: array<nat>, lbuf: array<nat>, lmsd: nat, llsd: nat, padding: nat, ghost ls: seq<nat>)
    returns (ul: int, ub: int, left: nat)
    requires lmsd <= llsd && |ls| == llsd + 1 - lmsd && Unread(lbuf, lmsd, llsd, ls)
    requires padding < acc.Length && (lbuf == acc ==> llsd + 4 < acc.Length)
    modifies acc
    ensures left <= padding && ub == acc.Length - 1 - (padding - left) && ul == llsd - (padding - left) >= lmsd - 1
    ensures left > 0 ==> ul == lmsd - 1
    ensures RightEnd(acc[..], ub + 1, ls) && Unread(lbuf, lmsd, ul, ls)
    ensures forall i :: 0 <= i <= ub ==> acc[i] == old(acc[i])
  {
    hide RightEnd, Unread;
    NothingCopied(acc[..], ls);
    ul, ub, left := llsd, acc.Length - 1, padding;
    while ul - 3 >= lmsd && left > 3
      invariant 0 <= left <= padding && ub == acc.Length - 1 - (padding - left) && ul == llsd - (padding - left) >= lmsd - 1
      invariant RightEnd(acc[..], ub + 1, ls) && Unread(lbuf, lmsd, ul, ls)
      invariant forall i :: 0 <= i <= ub ==> acc[i] == old(acc[i])
      decreases left
    {
      CopyWord(acc, lbuf, lmsd, ul, ub, ls);
      left, ul, ub := left - 4, ul - 4, ub - 4;
    }
    while ul >= lmsd && left > 0
      invariant 0 <= left <= padding && ub == acc.Length - 1 - (padding - left) && ul == llsd - (padding - left) >= lmsd - 1
      invariant RightEnd(acc[..], ub + 1, ls) && Unread(lbuf, lmsd, ul, ls)
      invariant forall i :: 0 <= i <= ub ==> acc[i] == old(acc[i])
      decreases left
    {
      CopyDigit(acc, lbuf, lmsd, ul, ub, ls);
      left, ul, ub := left - 1, ul - 1, ub - 1;
    }
  }

  /** Copies the low end of the lower operand to the right end of acc, filling the gap with zeros. */
  method SetLow(acc: array<nat>, lbuf: array<nat>, lmsd: nat, llsd: nat, padding: nat, ghost ls: seq<nat>)
    returns (ul: int, ub: int)
    requires lmsd <= llsd && |ls| == llsd + 1 - lmsd && Unread(lbuf, lmsd, llsd, ls)
    requires padding < acc.Length && (lbuf == acc ==> llsd + 4 < acc.Length)
    modifies acc
    ensures ub == acc.Length - 1 - padding
    ensures ul == lmsd + (if |ls| > padding then |ls| - 1 - padding else -1)
    ensures RightEnd(acc[..], ub + 1, ls) && Unread(lbuf, lmsd, ul, ls)
    ensures forall i :: 0 <= i <= ub ==> acc[i] == old(acc[i])
  {
    var left;
    ul, ub, left := CopyLow(acc, lbuf, lmsd, llsd, padding, ls);
    while left > 0
      invariant 0 <= left <= padding && ub == acc.Length - 1 - (padding - left) && (left > 0 ==> ul == lmsd - 1)
      invariant left > 0 ==> padding - left >= |ls|
      invariant RightEnd(acc[..], ub + 1, ls) && Unread(lbuf, lmsd, ul, ls)
      invariant forall i :: 0 <= i <= ub ==> acc[i] == old(acc[i])
      decreases left
    {
      acc[ub] := 0;
      left, ub := left - 1, ub - 1;
    }
  }

  /** The low end is written and the ten's complement's one is waiting as a carry. */
  lemma LowSummed(acc: seq<nat>, hs: seq<nat>, ls: seq<nat>, p: nat, pad: nat, n: nat, carry: nat)
    requires |hs| + p <= n && |ls| <= n <= |acc| && AllDigits(ls) && carry <= 1 && RightEnd(acc, |acc| - p, ls)
    ensures Summed(acc[|acc| - p..], carry, HiString(hs, p, pad, n), LoString(ls, n), CarryValue(carry, p))
  {
    hide Dec, Pow10;
    var hv, lv := HiString(hs, p, pad, n), LoString(ls, n);
    assert hv[n - p..] == Fill(p, 0);
    DecZeros(Fill(p, 0));
    var tail := acc[|acc| - p..];
    forall i | 0 <= i < p
      ensures lv[n - p..][i] == tail[i] <= 9
    {
      assert acc[|acc| - p + i] == tail[i];
    }
    assert lv[n - p..] == tail;
  }

  // ---- where digits of both operands, or of one and a pad, are added ----

  /** Writes one digit of the sum. */
  method AddDigit(acc: array<nat>, ub: nat, a: nat, b: nat, carry: nat, ghost hv: seq<nat>, ghost lv: seq<nat>, ghost c: nat)
    returns (carry': nat)
    requires ub < acc.Length && Summed(acc[ub + 1..], carry, hv, lv, c) && acc.Length - 1 - ub < |hv|
    requires a == hv[|hv| - (acc.Length - ub)] <= 9 && b == lv[|lv| - (acc.Length - ub)] <= 9
    modifies acc
    ensures Summed(acc[ub..], carry', hv, lv, c)
    ensures forall i :: 0 <= i < ub ==> acc[i] == old(acc[i])
  {
    ghost var tail := acc[ub + 1..];
    acc[ub], carry' := carry + a + b, 0;
    if acc[ub] >= 10 {
      acc[ub], carry' := acc[ub] - 10, 1;
    }
    assert acc[ub..] == [acc[ub]] + tail;
    hide Dec;
    AddStep(tail, carry, hv, lv, c, acc[ub], carry');
  }

  /** The digit t places from the right of each string. */
  lemma HiDigit(hs: seq<nat>, p: nat, pad: nat, n: nat, t: nat)
    requires AllDigits(hs) && |hs| + p <= n && p <= t < n && pad <= 9
    ensures HiString(hs, p, pad, n)[n - 1 - t] == (if t < p + |hs| then hs[|hs| - 1 - (t - p)] else pad) <= 9
  {
  }

  lemma LoDigit(ls: seq<nat>, n: nat, t: nat)
    requires AllDigits(ls) && |ls| <= n && t < n
    ensures LoString(ls, n)[n - 1 - t] == (if t < |ls| then ls[|ls| - 1 - t] else 0) <= 9
  {
  }

  /** Where the operands end relative to the sum: p padding digits, n digits in all. */
  predicate Extent(hs: seq<nat>, ls: seq<nat>, p: nat, n: nat) {
    && AllDigits(hs) && AllDigits(ls) && |hs| + p <= n && |ls| <= n
    && n == if |hs| + p > |ls| then |hs| + p else |ls|
  }

  lemma ExtentFits(hs: seq<nat>, ls: seq<nat>, p: nat, n: nat)
    requires Extent(hs, ls, p, n)
    ensures |hs| + p <= n && |ls| <= n
  {
  }

  /** The index of an operand's next unread digit once t digits of the sum are written. */
  function HiNext(hmsd: nat, hs: seq<nat>, p: nat, t: int): int {
    hmsd + |hs| - 1 - (t - p)
  }

  function LoNext(lmsd: nat, ls: seq<nat>, t: int): int {
    lmsd + |ls| - 1 - t
  }

  /** The sum of the operand strings' low ends is in acc above ub. */
  ghost predicate Upto(acc: array<nat>, ub: int, carry: nat, hs: seq<nat>, ls: seq<nat>, p: nat, pad: nat, n: nat, c: nat)
    requires |hs| + p <= n && |ls| <= n
    reads acc
  {
    -1 <= ub < acc.Length && Summed(acc[ub + 1..], carry, HiString(hs, p, pad, n), LoString(ls, n), c)
  }

  /** One digit of each operand, the rest of both left as they were. */
  method BothStep(acc: array<nat>, hbuf: array<nat>, hmsd: nat, uh: nat, lbuf: array<nat>, lmsd: nat, ul: nat, ub: nat,
                  carry: nat, ghost hs: seq<nat>, ghost ls: seq<nat>, ghost p: nat, ghost pad: nat, ghost n: nat, ghost c: nat)
    returns (carry': nat)
    requires Extent(hs, ls, p, n) && pad <= 9 && p <= acc.Length - 1 - ub < n
    requires hbuf != lbuf && hmsd <= uh && lmsd <= ul && Unread(hbuf, hmsd, uh, hs) && Unread(lbuf, lmsd, ul, ls)
    requires (hbuf == acc ==> uh <= ub) && (lbuf == acc ==> ul <= ub)
    requires uh == HiNext(hmsd, hs, p, acc.Length - 1 - ub) && ul == LoNext(lmsd, ls, acc.Length - 1 - ub)
    requires Upto(acc, ub, carry, hs, ls, p, pad, n, c)
    modifies acc
    ensures Upto(acc, ub - 1, carry', hs, ls, p, pad, n, c)
    ensures Unread(hbuf, hmsd, uh - 1, hs) && Unread(lbuf, lmsd, ul - 1, ls)
  {
    hide Summed;
    HiDigit(hs, p, pad, n, acc.Length - 1 - ub);
    LoDigit(ls, n, acc.Length - 1 - ub);
    carry' := AddDigit(acc, ub, hbuf[uh], lbuf[ul], carry, HiString(hs, p, pad, n), LoString(ls, n), c);
  }

  /** One digit of hi alone. */
  method HighStep(acc: array<nat>, hbuf: array<nat>, hmsd: nat, uh: nat, ub: nat, carry: nat, ghost hs: seq<nat>,
                  ghost ls: seq<nat>, ghost p: nat, ghost pad: nat, ghost n: nat, ghost c: nat)
    returns (carry': nat)
    requires Extent(hs, ls, p, n) && pad <= 9 && p <= acc.Length - 1 - ub < n && |ls| <= acc.Length - 1 - ub
    requires hmsd <= uh && Unread(hbuf, hmsd, uh, hs) && (hbuf == acc ==> uh <= ub)
    requires uh == HiNext(hmsd, hs, p, acc.Length - 1 - ub) && Upto(acc, ub, carry, hs, ls, p, pad, n, c)
    modifies acc
    ensures Upto(acc, ub - 1, carry', hs, ls, p, pad, n, c) && Unread(hbuf, hmsd, uh - 1, hs)
  {
    hide Summed;
    HiDigit(hs, p, pad, n, acc.Length - 1 - ub);
    LoDigit(ls, n, acc.Length - 1 - ub);
    carry' := AddDigit(acc, ub, hbuf[uh], 0, carry, HiString(hs, p, pad, n), LoString(ls, n), c);
  }

  /** One digit of lo, beside a pad digit. */
  method LowStep(acc: array<nat>, lbuf: array<nat>, lmsd: nat, ul: nat, ub: nat, carry: nat, pad: nat, ghost hs: seq<nat>,
                 ghost ls: seq<nat>, ghost p: nat, ghost n: nat, ghost c: nat)
    returns (carry': nat)
    requires Extent(hs, ls, p, n) && pad <= 9 && p + |hs| <= acc.Length - 1 - ub < n
    requires lmsd <= ul && Unread(lbuf, lmsd, ul, ls) && (lbuf == acc ==> ul <= ub)
    requires ul == LoNext(lmsd, ls, acc.Length - 1 - ub) && Upto(acc, ub, carry, hs, ls, p, pad, n, c)
    modifies acc
    ensures Upto(acc, ub - 1, carry', hs, ls, p, pad, n, c) && Unread(lbuf, lmsd, ul - 1, ls)
  {
    hide Summed;
    HiDigit(hs, p, pad, n, acc.Length - 1 - ub);
    LoDigit(ls, n, acc.Length - 1 - ub);
    carry' := AddDigit(acc, ub, pad, lbuf[ul], carry, HiString(hs, p, pad, n), LoString(ls, n), c);
  }

  /** While both operands have digits. */
  method AddBoth(acc: array<nat>, hbuf: array<nat>, hmsd: nat, uh0: nat, lbuf: array<nat>, lmsd: nat, ul0: nat,
                 ub0: nat, carry0: nat, pad: nat, ghost hs: seq<nat>, ghost ls: seq<nat>, ghost p: nat, ghost n: nat, ghost c: nat)
    returns (uh: int, ul: int, ub: int, carry: nat)
    requires hbuf != lbuf && Extent(hs, ls, p, n) && n < acc.Length && pad <= 9 && |ls| > p && |hs| > 0
    requires ub0 == acc.Length - 1 - p && uh0 == hmsd + |hs| - 1 && ul0 == lmsd + |ls| - 1 - p
    requires Unread(hbuf, hmsd, uh0, hs) && Unread(lbuf, lmsd, ul0, ls)
    requires (hbuf == acc ==> uh0 <= ub0) && (lbuf == acc ==> ul0 <= ub0)
    requires Upto(acc, ub0, carry0, hs, ls, p, pad, n, c)
    modifies acc
    ensures uh == hmsd - 1 <= ub - ub0 + uh0 || ul == lmsd - 1
    ensures ub0 - ub == uh0 - uh == ul0 - ul && uh >= hmsd - 1 && ul >= lmsd - 1
    ensures Unread(hbuf, hmsd, uh, hs) && Unread(lbuf, lmsd, ul, ls) && Upto(acc, ub, carry, hs, ls, p, pad, n, c)
  {
    hide Upto, Unread, Extent, Summed, Dec, Pow10, AllDigits, HiString, LoString, CarryValue;
    ExtentFits(hs, ls, p, n);
    uh, ul, ub, carry := uh0, ul0, ub0, carry0;
    while uh >= hmsd && ul >= lmsd
      invariant ub0 - ub == uh0 - uh == ul0 - ul && uh >= hmsd - 1 && ul >= lmsd - 1 && ub <= ub0
      invariant Unread(hbuf, hmsd, uh, hs) && Unread(lbuf, lmsd, ul, ls) && Upto(acc, ub, carry, hs, ls, p, pad, n, c)
      decreases uh
    {
      carry := BothStep(acc, hbuf, hmsd, uh, lbuf, lmsd, ul, ub, carry, hs, ls, p, pad, n, c);
      uh, ul, ub := uh - 1, ul - 1, ub - 1;
    }
  }

  /** To the left of lo. */
  method AddHigh(acc: array<nat>, hbuf: array<nat>, hmsd: nat, uh0: int, ub0: int, carry0: nat,
                 ghost pad: nat, ghost hs: seq<nat>, ghost ls: seq<nat>, ghost p: nat, ghost n: nat, ghost c: nat)
    returns (ub: int, carry: nat)
    requires Extent(hs, ls, p, n) && n < acc.Length && pad <= 9 && n == |hs| + p && |ls| <= acc.Length - 1 - ub0
    requires uh0 >= hmsd - 1 && ub0 - uh0 == acc.Length - n - hmsd && p <= acc.Length - 1 - ub0
    requires Unread(hbuf, hmsd, uh0, hs) && (hbuf == acc ==> uh0 <= ub0)
    requires Upto(acc, ub0, carry0, hs, ls, p, pad, n, c)
    modifies acc
    ensures ub == acc.Length - 1 - n && Upto(acc, ub, carry, hs, ls, p, pad, n, c)
  {
    hide Upto, Unread, Extent, Summed, Dec, Pow10, AllDigits, HiString, LoString, CarryValue;
    ExtentFits(hs, ls, p, n);
    var uh := uh0;
    ub, carry := ub0, carry0;
    while uh >= hmsd
      invariant uh >= hmsd - 1 && ub0 - ub == uh0 - uh && ub <= ub0
      invariant Unread(hbuf, hmsd, uh, hs) && Upto(acc, ub, carry, hs, ls, p, pad, n, c)
      decreases uh
    {
      carry := HighStep(acc, hbuf, hmsd, uh, ub, carry, hs, ls, p, pad, n, c);
      uh, ub := uh - 1, ub - 1;
    }
  }

  /** To the left of hi. */
  method AddLow(acc: array<nat>, lbuf: array<nat>, lmsd: nat, ul0: nat, ub0: int, carry0: nat, pad: nat,
                ghost hs: seq<nat>, ghost ls: seq<nat>, ghost p: nat, ghost n: nat, ghost c: nat)
    returns (ub: int, carry: nat)
    requires Extent(hs, ls, p, n) && n < acc.Length && pad <= 9 && n == |ls| && p + |hs| <= acc.Length - 1 - ub0
    requires ul0 >= lmsd && ub0 - ul0 == acc.Length - n - lmsd
    requires Unread(lbuf, lmsd, ul0, ls) && (lbuf == acc ==> ul0 <= ub0)
    requires Upto(acc, ub0, carry0, hs, ls, p, pad, n, c)
    modifies acc
    ensures ub == acc.Length - 1 - n && Upto(acc, ub, carry, hs, ls, p, pad, n, c)
  {
    hide Upto, Unread, Extent, Summed, Dec, Pow10, AllDigits, HiString, LoString, CarryValue;
    ExtentFits(hs, ls, p, n);
    var ul: int := ul0;
    ub, carry := ub0, carry0;
    while ul >= lmsd
      invariant ul >= lmsd - 1 && ub - ul == ub0 - ul0 && ul <= ul0 && p + |hs| <= acc.Length - 1 - ub <= n
      invariant Unread(lbuf, lmsd, ul, ls) && Upto(acc, ub, carry, hs, ls, p, pad, n, c)
      decreases ul
    {
      carry := LowStep(acc, lbuf, lmsd, ul, ub, carry, pad, hs, ls, p, n, c);
      ul, ub := ul - 1, ub - 1;
    }
  }

  /** Adds from hi's last digit leftwards until both operands are used up. */
  method AddDigits(acc: array<nat>, hbuf: array<nat>, hmsd: nat, hlsd: nat, lbuf: array<nat>, lmsd: nat, ul0: int,
                   ub0: nat, carry0: nat, hipad: nat, ghost hs: seq<nat>, ghost ls: seq<nat>, ghost p: nat,
                   ghost n: nat, ghost c: nat)
    returns (ub: int, carry: nat)
    requires hbuf != lbuf && Extent(hs, ls, p, n) && n < acc.Length && ub0 == acc.Length - 1 - p && hipad <= 9
    requires |hs| > 0 && hlsd == HiNext(hmsd, hs, p, p) && ul0 == if |ls| > p then LoNext(lmsd, ls, p) else lmsd - 1
    requires Unread(hbuf, hmsd, hlsd, hs) && Unread(lbuf, lmsd, ul0, ls)
    requires (hbuf == acc ==> hlsd <= ub0) && (lbuf == acc && ul0 >= lmsd ==> ul0 <= ub0)
    requires Upto(acc, ub0, carry0, hs, ls, p, hipad, n, c)
    modifies acc
    ensures ub == acc.Length - 1 - n && Upto(acc, ub, carry, hs, ls, p, hipad, n, c)
  {
    var uh, ul := hlsd as int, ul0;
    ub, carry := ub0, carry0;
    hide Upto, Unread, AllDigits;
    if ul >= lmsd {
      uh, ul, ub, carry := AddBoth(acc, hbuf, hmsd, uh, lbuf, lmsd, ul, ub, carry, hipad, hs, ls, p, n, c);
    }
    if ul < lmsd {
      ub, carry := AddHigh(acc, hbuf, hmsd, uh, ub, carry, hipad, hs, ls, p, n, c);
    } else {
      ub, carry := AddLow(acc, lbuf, lmsd, ul, ub, carry, hipad, hs, ls, p, n, c);
    }
  }
}
