/** Reading a number's text: where its coefficient lies, its exponent, and its digits. */
module Scanning {
  import opened Powers
  import opened Digits
  import opened Formats
  import opened Numerals

  /** The sign and the longest coefficient at the start of a string. */
  method ScanCoefficient(s: string) returns (neg: bool, first: nat, c: nat, dot: int)
    ensures Mantissa(s, first, c, dot) && neg == Negative(s)
  {
    neg, first, c, dot := false, 0, 0, -1;
    while c < |s|
      invariant first <= c <= |s| && first == (if c > 0 && IsSign(s[0]) then 1 else 0)
      invariant neg == (c > 0 && s[0] == '-') && (dot == -1 || (first <= dot < c && s[dot] == '.'))
      invariant forall i :: first <= i < c && i != dot ==> IsDigit(s[i])
    {
      if s[c] == '.' {
        if dot >= 0 { break; }
        dot := c;
      } else if c == 0 && s[c] == '-' {
        first, neg := 1, true;
      } else if c == 0 && s[c] == '+' {
        first := 1;
      } else if !IsDigit(s[c]) {
        break;
      }
      c := c + 1;
    }
  }

  lemma NumberSnoc(s: string, i: nat)
    requires i < |s|
    ensures Number(s[..i + 1]) == 10 * Number(s[..i]) + DigitOf(s[i])
  {
    assert Values(s[..i + 1]) == Values(s[..i]) + [DigitOf(s[i])];
    DecSnoc(Values(s[..i]), DigitOf(s[i]));
  }

  lemma ZeroFirst(s: string)
    requires s != "" && s[0] == '0'
    ensures Number(s) == Number(s[1..])
  {
    hide Dec;
    assert Values(s)[..1] == [0];
    assert Values(s)[1..] == Values(s[1..]);
    DecLeading(Values(s), 1);
  }

  lemma {:induction false} NumberSignificant(s: string)
    ensures Number(Significant(s)) == Number(s)
  {
    hide Number;
    if s != "" && s[0] == '0' {
      NumberSignificant(s[1..]);
      ZeroFirst(s);
    }
  }

  /** Skipping i leading zeros of a string that goes on with something else finds its significant part. */
  lemma {:induction false} SkippedZeros(s: string, i: nat)
    requires i <= |s| && (forall k :: 0 <= k < i ==> s[k] == '0') && (i == |s| || s[i] != '0')
    ensures Significant(s) == s[i..]
  {
    if i > 0 {
      SkippedZeros(s[1..], i - 1);
      assert s[1..][i - 1..] == s[i..];
    }
  }

  // ---- the exponent ----

  /** The greatest number of digits in an exponent, that of the least quantum (DECEMAXD). */
  function EmaxD(f: Format): nat {
    if f.Qtiny() > 0 then 1 else NumDigits(0 - f.Qtiny())
  }

  /** The exponent taken from a text: one that is surely too long becomes a safe value. */
  function ExponentRead(f: Format, t: string): int
    requires |t| >= 2
  {
    var d := ExponentDigits(t);
    var v := if |Significant(d)| > EmaxD(f) then f.emax * 2 else Number(d);
    if t[1] == '-' then 0 - v else v
  }

  /** Digits up to the end or to something else; exp is their value. */
  method ReadDigits(s: string, at: nat) returns (p: nat, exp: nat)
    requires at <= |s|
    ensures at <= p <= |s| && DigitString(s[at..p]) && (p < |s| ==> !IsDigit(s[p])) && exp == Number(s[at..p])
  {
    p, exp := at, 0;
    assert Values(s[at..at]) == [];
    while p < |s| && IsDigit(s[p])
      invariant at <= p <= |s| && DigitString(s[at..p]) && exp == Number(s[at..p])
    {
      assert s[at..][..p - at] == s[at..p] && s[at..][..p + 1 - at] == s[at..p + 1];
      NumberSnoc(s[at..], p - at);
      exp := exp * 10 + DigitOf(s[p]);
      p := p + 1;
    }
  }

  method SkipZeroChars(s: string, at: nat) returns (p: nat)
    requires at <= |s|
    ensures at <= p <= |s| && (forall k :: at <= k < p ==> s[k] == '0') && (p == |s| || s[p] != '0')
  {
    p := at;
    while p < |s| && s[p] == '0'
      invariant at <= p <= |s| && forall k :: at <= k < p ==> s[k] == '0'
    {
      p := p + 1;
    }
  }

  /** Zeros, then digits, then the end or something else. */
  lemma DigitsRead(d: string, k: nat, e: nat)
    requires k <= e <= |d| && (forall i :: 0 <= i < k ==> d[i] == '0') && (k == |d| || d[k] != '0')
    requires DigitString(d[k..e]) && (e < |d| ==> !IsDigit(d[e]))
    ensures DigitString(d) <==> e == |d|
    ensures e == |d| ==> Number(d) == Number(d[k..e]) && |Significant(d)| == e - k
  {
    if e == |d| {
      SkippedZeros(d, k);
      NumberSignificant(d);
      assert d[k..e] == d[k..];
      assert forall i :: k <= i < |d| ==> d[i] == d[k..e][i - k];
    }
  }

  /** An E, a sign if there is one, k zeros, and digits as far as e. */
  lemma ExponentAt(f: Format, s: string, c: nat, start: nat, k: nat, e: nat)
    requires c + 1 < |s| && (s[c] == 'E' || s[c] == 'e') && start == (if IsSign(s[c + 1]) then c + 2 else c + 1) < |s|
    requires start <= k <= e <= |s| && (forall i :: start <= i < k ==> s[i] == '0') && (k == |s| || s[k] != '0')
    requires DigitString(s[k..e]) && (e < |s| ==> !IsDigit(s[e]))
    ensures ExponentText(s[c..]) <==> e == |s|
    ensures e == |s| ==> var v := if e > k + EmaxD(f) then f.emax * 2 else Number(s[k..e]);
      ExponentRead(f, s[c..]) == if s[c + 1] == '-' then 0 - v else v
  {
    var t, d := s[c..], s[start..];
    assert |t| == |s| - c && t[0] == s[c] && t[1] == s[c + 1];
    TailOfTail(s, c, start);
    assert forall i :: 0 <= i < |d| ==> d[i] == s[start + i];
    SameSlice(s[k..e], d[k - start..e - start]);
    hide *;
    ExponentOf(f, t, d, k - start, e - start);
  }

  lemma TailOfTail(s: string, c: nat, start: nat)
    requires c <= start <= |s|
    ensures s[c..][start - c..] == s[start..]
  {
  }

  lemma ExponentOf(f: Format, t: string, d: string, k: nat, e: nat)
    requires |t| >= 2 && (t[0] == 'E' || t[0] == 'e') && d == t[if IsSign(t[1]) then 2 else 1..] && d != ""
    requires k <= e <= |d| && (forall i :: 0 <= i < k ==> d[i] == '0') && (k == |d| || d[k] != '0')
    requires DigitString(d[k..e]) && (e < |d| ==> !IsDigit(d[e]))
    ensures ExponentText(t) <==> e == |d|
    ensures e == |d| ==> var v := if e > k + EmaxD(f) then f.emax * 2 else Number(d[k..e]);
      ExponentRead(f, t) == if t[1] == '-' then 0 - v else v
  {
    assert d == ExponentDigits(t);
    hide Number, Significant, EmaxD, IsDigit;
    DigitsRead(d, k, e);
  }

  /** The exponent part that must fill the rest of the string. */
  method ReadExponent(f: Format, s: string, c: nat) returns (ok: bool, exp: int)
    requires c < |s|
    ensures ok <==> ExponentText(s[c..])
    ensures ok ==> exp == ExponentRead(f, s[c..])
  {
    hide Number, Significant, EmaxD, ExponentRead, DigitString, Values;
    exp := 0;
    if s[c] != 'E' && s[c] != 'e' {
      return false, 0;
    }
    var p := c + 1;
    if p < |s| && IsSign(s[p]) {
      p := p + 1;
    }
    if p == |s| {
      return false, 0;
    }
    ghost var start := p;
    p := SkipZeroChars(s, p);
    var end;
    end, exp := ReadDigits(s, p);
    ExponentAt(f, s, c, start, p, end);
    if end < |s| {
      return false, 0;
    }
    if end > p + EmaxD(f) {
      exp := f.emax * 2;
    }
    if s[c + 1] == '-' {
      exp := 0 - exp;
    }
    ok := true;
  }

  // ---- the digits of the coefficient ----

  lemma BodySnoc(s: string, i: nat, j: nat, dot: int)
    requires i <= j < |s|
    ensures Body(s, i, j + 1, dot) == if j == dot then Body(s, i, j, dot) else Body(s, i, j, dot) + [s[j]]
  {
  }

  lemma BodyCons(s: string, i: nat, j: nat, dot: int)
    requires i < j <= |s|
    ensures Body(s, i, j, dot) == if i == dot then Body(s, i + 1, j, dot) else [s[i]] + Body(s, i + 1, j, dot)
  {
  }

  lemma BodyEmpty(s: string, i: nat, dot: int)
    requires i <= |s|
    ensures Body(s, i, i, dot) == "" && Values(Body(s, i, i, dot)) == []
  {
  }

  method PutOne(buf: array<nat>, ub: nat, c: char)
    requires ub < buf.Length
    modifies buf
    ensures buf[..ub + 1] == old(buf[..ub]) + [DigitOf(c)]
  {
    hide DigitOf;
    buf[ub] := DigitOf(c);
  }

  /** Copies the digits of s[i..j], all but the dot, to the start of buf. */
  method CopyDigits(s: string, i: nat, j: nat, dot: int, buf: array<nat>)
    requires i <= j <= |s| && |Body(s, i, j, dot)| <= buf.Length
    requires i <= dot < j ==> s[dot] == '.'
    requires forall k :: i <= k < j && k != dot ==> IsDigit(s[k])
    modifies buf
    ensures buf[..|Body(s, i, j, dot)|] == Values(Body(s, i, j, dot))
  {
    hide Values, Body, DigitOf;
    var c, ub := i, 0;
    BodyEmpty(s, i, dot);
    while c < j
      invariant i <= c <= j && ub == |Body(s, i, c, dot)| == |Body(s, i, j, dot)| - |Body(s, c, j, dot)|
      invariant buf[..ub] == Values(Body(s, i, c, dot))
    {
      BodySnoc(s, i, c, dot);
      BodyCons(s, c, j, dot);
      if s[c] != '.' {
        ValuesSnoc(Body(s, i, c, dot), s[c]);
        PutOne(buf, ub, s[c]);
        ub := ub + 1;
      }
      c := c + 1;
    }
    BodyEmpty(s, j, dot);
  }

  lemma ValuesSnoc(t: string, c: char)
    ensures Values(t + [c]) == Values(t) + [DigitOf(c)]
  {
  }
}
