/** Ten's complement on digit strings, and what an addition with it computes. */
module Complement {
  import opened Powers
  import opened Digits
  import opened DigitSums

  function Nines(s: seq<nat>): (t: seq<nat>)
    requires AllDigits(s)
    ensures |t| == |s| && AllDigits(t)
  {
    seq(|s|, i requires 0 <= i < |s| => 9 - s[i])
  }

  lemma {:induction false} NinesValue(s: seq<nat>)
    requires AllDigits(s)
    ensures Dec(Nines(s)) == Pow10(|s|) - 1 - Dec(s)
  {
    if s != [] {
      var n := |s| - 1;
      NinesValue(s[..n]);
      assert Nines(s)[..n] == Nines(s[..n]);
    }
  }

  /** Inverts the digits from..to in place, a word of four at a time and then singly. */
  method Invert(buf: array<nat>, from: nat, to: nat)
    requires from <= to < buf.Length && AllDigits(buf[from..to + 1])
    modifies buf
    ensures buf[from..to + 1] == Nines(old(buf[from..to + 1]))
    ensures forall i :: 0 <= i < buf.Length && !(from <= i <= to) ==> buf[i] == old(buf[i])
  {
    ghost var was := buf[from..to + 1];
    var u := from;
    while u < to - 3
      invariant from <= u <= to + 1
      invariant forall i :: 0 <= i < buf.Length ==> buf[i] == if from <= i < u then 9 - was[i - from] else old(buf[i])
    {
      assert forall i :: u <= i <= to ==> buf[i] == was[i - from];
      buf[u], buf[u + 1], buf[u + 2], buf[u + 3] := 9 - buf[u], 9 - buf[u + 1], 9 - buf[u + 2], 9 - buf[u + 3];
      u := u + 4;
    }
    while u <= to
      invariant from <= u <= to + 1
      invariant forall i :: 0 <= i < buf.Length ==> buf[i] == if from <= i < u then 9 - was[i - from] else old(buf[i])
    {
      assert buf[u] == was[u - from];
      buf[u] := 9 - buf[u];
      u := u + 1;
    }
    assert buf[from..to + 1] == Nines(was);
  }

  lemma MoreThanNines(s: seq<nat>, from: nat, ul: nat, to: nat)
    requires from <= ul <= to < |s| && !AllOf(s[from..to + 1], 9) && forall i :: ul <= i <= to ==> s[i] == 9
    ensures ul > from
  {
  }

  /** One more in the digit before a run of nines. */
  lemma Incremented(s: seq<nat>, t: seq<nat>, from: nat, ul: nat, to: nat)
    requires from <= ul <= to < |s| == |t| && AllDigits(s[from..to + 1]) && s[ul] != 9 && t[ul] == s[ul] + 1
    requires forall i :: from <= i < ul ==> t[i] == s[i]
    requires forall i :: ul < i <= to ==> t[i] == 0 && s[i] == 9
    ensures AllDigits(t[from..to + 1]) && Dec(t[from..to + 1]) == Dec(s[from..to + 1]) + 1
  {
    hide Dec;
    assert s[from..to + 1][ul - from] == s[ul];
    assert forall i :: from <= i < ul ==> s[from..to + 1][i - from] == s[i];
    DecIncrement(s[from..to + 1], t[from..to + 1], ul - from);
  }

  /** Adds one in place to digits that are not all nines. */
  method AddOne(buf: array<nat>, from: nat, to: nat)
    requires from <= to < buf.Length && AllDigits(buf[from..to + 1]) && !AllOf(buf[from..to + 1], 9)
    modifies buf
    ensures AllDigits(buf[from..to + 1]) && Dec(buf[from..to + 1]) == old(Dec(buf[from..to + 1])) + 1
    ensures forall i :: 0 <= i < buf.Length && !(from <= i <= to) ==> buf[i] == old(buf[i])
  {
    hide Dec, AllDigits, AllOf;
    ghost var was := buf[..];
    var ul := to;
    while buf[ul] == 9
      invariant from <= ul <= to
      invariant forall i :: 0 <= i < buf.Length && !(ul < i <= to) ==> buf[i] == was[i]
      invariant forall i :: ul < i <= to ==> buf[i] == 0 && was[i] == 9
      decreases ul
    {
      MoreThanNines(was, from, ul, to);
      buf[ul] := 0;
      ul := ul - 1;
    }
    buf[ul] := buf[ul] + 1;
    Incremented(was, buf[..], from, ul, to);
  }

  /** Replaces a non-zero number by its ten's complement. */
  method Negate(buf: array<nat>, from: nat, to: nat)
    requires from <= to < buf.Length && AllDigits(buf[from..to + 1]) && Dec(buf[from..to + 1]) > 0
    modifies buf
    ensures AllDigits(buf[from..to + 1])
    ensures Dec(buf[from..to + 1]) == Pow10(to + 1 - from) - old(Dec(buf[from..to + 1]))
    ensures forall i :: 0 <= i < buf.Length && !(from <= i <= to) ==> buf[i] == old(buf[i])
  {
    ghost var was := buf[from..to + 1];
    NinesValue(was);
    Invert(buf, from, to);
    if AllOf(buf[from..to + 1], 9) {
      DecNines(buf[from..to + 1]);
    }
    AddOne(buf, from, to);
  }

  // ---- the value of the two operand strings ----

  lemma HiValue(hs: seq<nat>, p: nat, n: nat)
    requires |hs| + p <= n
    ensures Dec(HiString(hs, p, 0, n)) == Dec(hs) * Pow10(p)
  {
    hide Dec, Pow10;
    var z := Fill(n - p - |hs|, 0);
    DecPad(z + hs, Fill(p, 0));
    DecLeading(z + hs, |z|);
    assert (z + hs)[|z|..] == hs;
  }

  lemma LoValue(ls: seq<nat>, n: nat)
    requires |ls| <= n
    ensures Dec(LoString(ls, n)) == Dec(ls)
  {
    hide Dec, Pow10;
    var z := Fill(n - |ls|, 0);
    DecLeading(z + ls, |z|);
    assert (z + ls)[|z|..] == ls;
  }

  /** The inverted higher operand, extended by nines, plus the one still to come. */
  lemma HiComplement(hs: seq<nat>, p: nat, n: nat)
    requires AllDigits(hs) && |hs| + p <= n
    ensures Dec(HiString(Nines(hs), p, 9, n)) + Pow10(p) == Pow10(n) - Dec(hs) * Pow10(p)
  {
    var z := Fill(n - p - |hs|, 9);
    assert HiString(Nines(hs), p, 9, n) == z + Nines(hs) + Fill(p, 0);
    hide Dec, Pow10, Fill, Nines, HiString;
    DecPad(z + Nines(hs), Fill(p, 0));
    TopComplement(z, hs, p, n);
  }

  lemma TopComplement(z: seq<nat>, hs: seq<nat>, p: nat, n: nat)
    requires AllDigits(hs) && AllOf(z, 9) && n == |z| + |hs| + p
    ensures Dec(z + Nines(hs)) * Pow10(p) + Pow10(p) == Pow10(n) - Dec(hs) * Pow10(p)
  {
    hide Dec, Pow10;
    var v := ComplementTop(z, hs);
    PowerOfThree(n, |z|, |hs|, p);
    Complemented(Pow10(|z|), Pow10(|hs|), Pow10(p), Dec(hs), v);
  }

  lemma ComplementTop(z: seq<nat>, hs: seq<nat>) returns (v: nat)
    requires AllDigits(hs) && AllOf(z, 9)
    ensures v == Dec(z + Nines(hs)) == (Pow10(|z|) - 1) * Pow10(|hs|) + (Pow10(|hs|) - 1 - Dec(hs))
  {
    hide Dec, Pow10;
    NinesValue(hs);
    DecNines(z);
    DecAppend(z, Nines(hs));
    v := Dec(z + Nines(hs));
  }

  lemma PowerOfThree(n: nat, a: nat, b: nat, c: nat)
    requires n == a + b + c
    ensures Pow10(n) == Pow10(a) * Pow10(b) * Pow10(c)
  {
    hide Pow10;
    Pow10Add(a, b);
    Pow10Add(a + b, c);
  }

  lemma Complemented(a: nat, b: nat, p: nat, h: nat, v: nat)
    requires v == (a - 1) * b + (b - 1 - h)
    ensures v * p + p == a * b * p - h * p
  {
    assert v == a * b - 1 - h;
    assert (a * b - 1 - h) * p == a * b * p - p - h * p;
  }
}
