/** The fast path of decFloatAdd: aligned coefficients of like sign, added in base one thousand. */
module Thousands {
  import opened Powers
  import opened Formats

  /** The number a base-1000 array holds, least significant element first. */
  function Thou(s: seq<nat>): nat {
    if s == [] then 0 else s[0] + 1000 * Thou(s[1..])
  }

  function PowT(n: nat): (p: nat)
    ensures p >= 1
  {
    if n == 0 then 1 else 1000 * PowT(n - 1)
  }

  lemma {:induction false} PowTIsPow10(n: nat)
    ensures PowT(n) == Pow10(3 * n)
  {
    if n > 0 {
      PowTIsPow10(n - 1);
      Pow10Add(3, 3 * (n - 1));
      assert Pow10(3) == 1000;
    }
  }

  /** The coefficient is a leading digit and whole declets. */
  predicate Decletted(f: Format) {
    f.Valid() && (f.pmax - 1) % 3 == 0
  }

  function Declets(f: Format): nat
    requires Decletted(f)
  {
    (f.pmax - 1) / 3
  }

  lemma DeclettedFormats()
    ensures Decletted(DOUBLE) && Declets(DOUBLE) == 5 && Decletted(QUAD) && Declets(QUAD) == 11
  {
  }

  /** The leading digit of a coefficient (DECTESTMSD). */
  function Msd(f: Format, c: nat): nat
    requires f.Valid()
  {
    Quotient(c, Pow10(f.pmax - 1))
  }

  /** Adding v to element k. */
  lemma {:induction false} ThouAddAt(s: seq<nat>, t: seq<nat>, k: nat, v: int)
    requires k < |s| == |t| && t[k] == s[k] + v && (forall i :: 0 <= i < |s| && i != k ==> t[i] == s[i])
    ensures Thou(t) == Thou(s) + PowT(k) * v
  {
    if k == 0 {
      assert t[1..] == s[1..];
    } else {
      ThouAddAt(s[1..], t[1..], k - 1, v);
      assert 1000 * (PowT(k - 1) * v) == 1000 * PowT(k - 1) * v by { MulAssoc(1000, PowT(k - 1), v); }
    }
  }

  lemma {:induction false} ThouZeros(s: seq<nat>)
    requires forall i :: 0 <= i < |s| ==> s[i] == 0
    ensures Thou(s) == 0
  {
    if s != [] { ThouZeros(s[1..]); }
  }

  /** Every declet is a declet. */
  predicate Normal(s: seq<nat>, i: nat) {
    forall k :: 0 <= k < |s| - 1 ==> s[k] <= if k == i then 1000 else 999
  }

  lemma NextDeclet(p: nat, rest: nat, v: nat, total: nat)
    requires v + p * rest == total
    ensures v + p * (rest % 1000) + 1000 * p * (rest / 1000) == total
  {
    var q, r := rest / 1000, rest % 1000;
    assert p * (1000 * q + r) == 1000 * p * q + p * r;
  }

  /** Adds declet i of a coefficient, with the carry into the next element. */
  method AddDeclet(buf: array<nat>, i: nat, d: nat, ghost total: nat, ghost rest: nat)
    requires i + 1 < buf.Length && d == rest % 1000 && Normal(buf[..], i)
    requires Thou(buf[..]) + PowT(i) * rest == total
    modifies buf
    ensures Normal(buf[..], i + 1) && Thou(buf[..]) + PowT(i + 1) * (rest / 1000) == total
  {
    ghost var s0 := buf[..];
    assert s0[i] <= 1000;
    hide Thou, PowT;
    NextDeclet(PowT(i), rest, Thou(s0), total);
    buf[i] := buf[i] + d;
    ghost var s1 := buf[..];
    ThouAddAt(s0, s1, i, d);
    NextPower(i);
    if buf[i] > 999 {
      buf[i] := buf[i] - 1000;
      ghost var s2 := buf[..];
      ThouAddAt(s1, s2, i, -1000);
      buf[i + 1] := buf[i + 1] + 1;
      ThouAddAt(s2, buf[..], i + 1, 1);
    }
  }

  lemma NextPower(i: nat)
    ensures PowT(i + 1) == 1000 * PowT(i)
  {
  }

  /** Adds a coefficient to a base-1000 array, declet by declet (GETCOEFFTHOU on zeros, ADDCOEFFTHOU). */
  method AddCoefficient(f: Format, buf: array<nat>, coef: nat)
    requires Decletted(f) && buf.Length == Declets(f) + 1 && Normal(buf[..], buf.Length)
    modifies buf
    ensures Normal(buf[..], buf.Length) && Thou(buf[..]) == old(Thou(buf[..])) + coef
  {
    var rest, n := coef, Declets(f);
    ghost var total := Thou(buf[..]) + coef;
    assert PowT(0) == 1;
    hide Thou, PowT, Normal;
    assert Normal(buf[..], 0) by { NormalWeaker(buf[..], buf.Length, 0); }
    for i := 0 to n
      invariant Normal(buf[..], i) && Thou(buf[..]) + PowT(i) * rest == total
    {
      AddDeclet(buf, i, rest % 1000, total, rest);
      rest := rest / 1000;
    }
    ghost var s := buf[..];
    buf[n] := buf[n] + rest;
    ThouAddAt(s, buf[..], n, rest);
    NormalTop(s, buf[..], n);
  }

  lemma NormalWeaker(s: seq<nat>, n: nat, i: nat)
    requires Normal(s, n) && n >= |s|
    ensures Normal(s, i)
  {
  }

  lemma NormalTop(s: seq<nat>, t: seq<nat>, n: nat)
    requires Normal(s, n) && |t| == |s| == n + 1 && forall k :: 0 <= k < n ==> t[k] == s[k]
    ensures Normal(t, |t|)
  {
  }

  /** Two coefficients whose leading digits add up to at most eight have a sum that fits. */
  lemma SmallSum(f: Format, a: nat, b: nat)
    requires f.Valid() && Msd(f, a) + Msd(f, b) <= 8
    ensures a + b < Pow10(f.pmax)
  {
    var p := Pow10(f.pmax - 1);
    DivModFact(a, p);
    DivModFact(b, p);
    hide Pow10;
    SmallParts(a / p, b / p, p);
    assert Pow10(f.pmax) == 10 * p by { Pow10Add(1, f.pmax - 1); PowOne(); }
  }

  lemma PowOne()
    ensures Pow10(1) == 10
  {
  }

  lemma SmallParts(x: nat, y: nat, p: nat)
    requires x + y <= 8
    ensures x * p + y * p <= 8 * p
  {
    assert x * p + y * p == (x + y) * p;
    MulLe(x + y, 8, p);
  }

  /** The two coefficients added in base 1000. */
  method AddThousands(f: Format, a: nat, b: nat) returns (c: nat)
    requires Decletted(f)
    ensures c == a + b
  {
    var tac := new nat[Declets(f) + 1];
    for i := 0 to tac.Length
      invariant forall k :: 0 <= k < i ==> tac[k] == 0
    {
      tac[i] := 0;
    }
    ThouZeros(tac[..]);
    AddCoefficient(f, tac, a);
    AddCoefficient(f, tac, b);
    c := Thou(tac[..]);
  }
}
