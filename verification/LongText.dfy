/** Coefficients too long for the parser's buffer: stripped, cut, and given a sticky last digit. */
module LongText {
  import opened Powers
  import opened Digits
  import opened Formats
  import opened Rounding
  import opened Integers
  import opened StandIns
  import opened QuotientLayout
  import opened Finalize
  import opened FmaShorten
  import opened Numerals
  import opened Scanning

  predicate Zeros(s: string) {
    forall i :: 0 <= i < |s| ==> s[i] == '0'
  }

  lemma NumberZeros(z: string, t: string)
    requires Zeros(z)
    ensures Number(z + t) == Number(t)
  {
    var v := Values(z + t);
    assert v[..|z|] == Values(z) && v[|z|..] == Values(t);
    DecLeading(v, |z|);
  }

  lemma NumberIsZero(s: string)
    requires DigitString(s)
    ensures Number(s) == 0 <==> Zeros(s)
  {
    if Zeros(s) {
      DecZeros(Values(s));
    } else {
      var i :| 0 <= i < |s| && s[i] != '0';
      assert Values(s)[i] == DigitOf(s[i]) != 0;
      DecZeroOnly(Values(s), i);
    }
  }

  // ---- leading zeros ----

  lemma StepOver(s: string, first: nat, i: nat, c: nat, dot: int)
    requires first <= i < c <= |s| && Zeros(Body(s, first, i, dot)) && (s[i] == '0' || i == dot)
    ensures Zeros(Body(s, first, i + 1, dot))
    ensures |Body(s, i, c, dot)| == |Body(s, i + 1, c, dot)| + if i == dot then 0 else 1
  {
    BodyCons(s, i, c, dot);
    BodySnoc(s, first, i, dot);
  }

  lemma SteppedOver(s: string, first: nat, i: nat, c: nat, dot: int)
    requires first <= i < c <= |s| && Zeros(Body(s, first, i, dot)) && (first <= dot < c ==> s[dot] == '.')
    requires forall k :: first <= k < c && k != dot ==> IsDigit(s[k])
    requires i == c - 1 || (s[i] != '0' && s[i] != '.')
    ensures Number(Body(s, i, c, dot)) == Number(Body(s, first, c, dot))
    ensures Body(s, i, c, dot) == "" <==> s[c - 1] == '.' && Zeros(Body(s, first, c, dot))
  {
    BodyCons(s, c - 1, c, dot);
    BodyEmpty(s, c, dot);
    BodySplit(s, first, i, c, dot);
    hide Number, Body;
    NumberZeros(Body(s, first, i, dot), Body(s, i, c, dot));
    if i < c - 1 {
      Later(s, i, c, dot);
      NotZeros(Body(s, first, i, dot), Body(s, i, c, dot));
    }
  }

  lemma StripBegins(s: string, first: nat, c: nat, dot: int)
    requires first < c <= |s| && (first <= dot < c ==> s[dot] == '.')
    requires forall k :: first <= k < c && k != dot ==> IsDigit(s[k])
    ensures forall k :: first <= k < c ==> (s[k] == '.' <==> k == dot)
    ensures Zeros(Body(s, first, first, dot)) && (|Body(s, first, c, dot)| > 1 ==> first + 1 < c)
  {
  }

  /** Steps over the zeros, and any dot, at the start of the coefficient s[first..c], but never its last character. */
  method StripZeros(s: string, first: nat, c: nat, dot: int) returns (cfirst: nat, digits: nat)
    requires first < c <= |s| && (first <= dot < c ==> s[dot] == '.')
    requires forall k :: first <= k < c && k != dot ==> IsDigit(s[k])
    requires |Body(s, first, c, dot)| > 1
    ensures first <= cfirst < c && digits == |Body(s, cfirst, c, dot)|
    ensures Number(Body(s, cfirst, c, dot)) == Number(Body(s, first, c, dot))
    ensures cfirst == c - 1 || (IsDigit(s[cfirst]) && s[cfirst] != '0')
    ensures digits == 0 <==> s[c - 1] == '.' && Zeros(Body(s, first, c, dot))
  {
    hide *;
    StripBegins(s, first, c, dot);
    cfirst, digits := first, |Body(s, first, c, dot)|;
    if s[cfirst] == '.' {
      StepOver(s, first, cfirst, c, dot);
      cfirst := cfirst + 1;
    }
    while cfirst < c - 1 && (s[cfirst] == '0' || s[cfirst] == '.')
      invariant first <= cfirst < c && Zeros(Body(s, first, cfirst, dot)) && digits == |Body(s, cfirst, c, dot)|
    {
      StepOver(s, first, cfirst, c, dot);
      if s[cfirst] == '0' {
        digits := digits - 1;
      }
      cfirst := cfirst + 1;
    }
    SteppedOver(s, first, cfirst, c, dot);
  }

  lemma Later(s: string, i: nat, c: nat, dot: int)
    requires i < c <= |s| && IsDigit(s[i]) && s[i] != '0' && (i <= dot < c ==> s[dot] == '.')
    ensures Body(s, i, c, dot) != "" && !Zeros(Body(s, i, c, dot))
  {
    BodyCons(s, i, c, dot);
    assert ([s[i]] + Body(s, i + 1, c, dot))[0] != '0';
  }

  // ---- copying and the sticky digit ----

  /** The digits of four characters at once. */
  method PutFour(buf: array<nat>, ub: nat, s: string, at: nat)
    requires ub + 4 <= buf.Length && at + 4 <= |s|
    modifies buf
    ensures buf[..ub + 4] == old(buf[..ub]) + [DigitOf(s[at]), DigitOf(s[at + 1]), DigitOf(s[at + 2]), DigitOf(s[at + 3])]
  {
    hide DigitOf;
    buf[ub], buf[ub + 1], buf[ub + 2], buf[ub + 3] := DigitOf(s[at]), DigitOf(s[at + 1]), DigitOf(s[at + 2]), DigitOf(s[at + 3]);
  }

  /** Copies until more than pmax digits are held, four at a time where the next four characters are digits. */
  method CopyUpTo(f: Format, s: string, i: nat, c: nat, dot: int, buf: array<nat>) returns (ub: nat, at: nat)
    requires i <= c <= |s| && (i <= dot < c ==> s[dot] == '.') && f.pmax + 4 <= buf.Length
    requires forall k :: i <= k < c && k != dot ==> IsDigit(s[k])
    modifies buf
    ensures i <= at <= c && ub == |Body(s, i, at, dot)| <= f.pmax + 4 && (at < c ==> ub > f.pmax)
    ensures buf[..ub] == Values(Body(s, i, at, dot))
  {
    hide Body, Values, DigitOf;
    ub, at := 0, i;
    BodyEmpty(s, i, dot);
    while at < c && ub <= f.pmax
      invariant i <= at <= c && ub == |Body(s, i, at, dot)| <= f.pmax + 4
      invariant buf[..ub] == Values(Body(s, i, at, dot))
    {
      if at + 3 < c && IsDigit(s[at]) && IsDigit(s[at + 1]) && IsDigit(s[at + 2]) && IsDigit(s[at + 3]) {
        FourMore(s, i, at, c, dot);
        PutFour(buf, ub, s, at);
        ub, at := ub + 4, at + 4;
      } else {
        BodySnoc(s, i, at, dot);
        if s[at] != '.' {
          ValuesSnoc(Body(s, i, at, dot), s[at]);
          PutOne(buf, ub, s[at]);
          ub := ub + 1;
        }
        at := at + 1;
      }
    }
  }

  lemma FourMore(s: string, i: nat, at: nat, c: nat, dot: int)
    requires i <= at && at + 4 <= c <= |s| && (i <= dot < c ==> s[dot] == '.')
    requires IsDigit(s[at]) && IsDigit(s[at + 1]) && IsDigit(s[at + 2]) && IsDigit(s[at + 3])
    ensures |Body(s, i, at + 4, dot)| == |Body(s, i, at, dot)| + 4
    ensures Values(Body(s, i, at + 4, dot)) == Values(Body(s, i, at, dot))
      + [DigitOf(s[at]), DigitOf(s[at + 1]), DigitOf(s[at + 2]), DigitOf(s[at + 3])]
  {
    hide *;
    OneMore(s, i, at, c, dot);
    OneMore(s, i, at + 1, c, dot);
    OneMore(s, i, at + 2, c, dot);
    OneMore(s, i, at + 3, c, dot);
    FourAppended(Values(Body(s, i, at, dot)), DigitOf(s[at]), DigitOf(s[at + 1]), DigitOf(s[at + 2]), DigitOf(s[at + 3]));
  }

  lemma OneMore(s: string, i: nat, at: nat, c: nat, dot: int)
    requires i <= at < c <= |s| && (i <= dot < c ==> s[dot] == '.') && IsDigit(s[at])
    ensures |Body(s, i, at + 1, dot)| == |Body(s, i, at, dot)| + 1
    ensures Values(Body(s, i, at + 1, dot)) == Values(Body(s, i, at, dot)) + [DigitOf(s[at])]
  {
    hide Body, Values, DigitOf;
    BodySnoc(s, i, at, dot);
    ValuesSnoc(Body(s, i, at, dot), s[at]);
  }

  lemma FourAppended(t: seq<nat>, a: nat, b: nat, c: nat, d: nat)
    ensures t + [a] + [b] + [c] + [d] == t + [a, b, c, d]
  {
  }

  /** Whether any character of s[at..c] is a digit other than zero. */
  method NonZeroLeft(s: string, at: nat, c: nat, ghost dot: int) returns (any: bool)
    requires at <= c <= |s| && (at <= dot < c ==> s[dot] == '.')
    requires forall k :: at <= k < c && k != dot ==> IsDigit(s[k])
    ensures any <==> !Zeros(Body(s, at, c, dot))
  {
    var i := at;
    BodyEmpty(s, at, dot);
    hide Body;
    while i < c
      invariant at <= i <= c && Zeros(Body(s, at, i, dot))
    {
      BodySnoc(s, at, i, dot);
      if s[i] != '0' && s[i] != '.' {
        BodySplit(s, at, i, c, dot);
        Later(s, i, c, dot);
        NotZeros(Body(s, at, i, dot), Body(s, i, c, dot));
        return true;
      }
      i := i + 1;
    }
    any := false;
  }

  lemma NotZeros(a: string, b: string)
    requires !Zeros(b)
    ensures !Zeros(a + b)
  {
    var i :| 0 <= i < |b| && b[i] != '0';
    assert (a + b)[|a| + i] != '0';
  }

  lemma BodySplit(s: string, i: nat, j: nat, k: nat, dot: int)
    requires i <= j <= k <= |s|
    ensures Body(s, i, k, dot) == Body(s, i, j, dot) + Body(s, j, k, dot)
  {
  }

  /** The digits kept, the last of them made sticky if any digit left out is not zero. */
  function Kept(v: seq<nat>, sticky: bool): (k: seq<nat>)
    requires v != []
    ensures |k| == |v|
  {
    if sticky then v[|v| - 1 := StickyDigit(v[|v| - 1])] else v
  }

  /** Cutting after more than pmax digits loses nothing that rounding could see. */
  lemma CutRounds(f: Format, m: Mode, neg: bool, v: seq<nat>, tail: seq<nat>, e: int, r: DecFloat, s0: set<Flag>, s1: set<Flag>)
    requires f.Valid() && |v| > f.pmax && AllDigits(v) && AllDigits(tail) && v[0] != 0
    requires Rounded(f, m, ExactOf(f, neg, Dec(Kept(v, Dec(tail) != 0)), 1, e + |tail|), r, s0, s1)
    ensures Rounded(f, m, ExactOf(f, neg, Dec(v + tail), 1, e), r, s0, s1)
  {
    hide *;
    var k, t := Kept(v, Dec(tail) != 0), |tail|;
    var M, N, q := Dec(k), Dec(v + tail), e + t;
    CutFacts(f, v, Dec(tail) != 0, q);
    DecAppend(v, tail);
    DecBound(tail);
    if Dec(tail) == 0 {
      IdealAnywhere(f, m, neg, M, q, e - f.Qtiny(), r, s0, s1);
      SameFraction(f, m, neg, N, Pow10(t), M, q, e - f.Qtiny(), r, s0, s1);
    } else {
      CutCell(Dec(v), M, N, Dec(tail), Pow10(t));
      TimesOne(5);
      CellStandIn(f, m, neg, N, Pow10(t), q, e - f.Qtiny(), M, M / 5, 5, 1, 0, r, s0, s1);
    }
    AtTail(N, e, q);
    MoveExponent(f, m, neg, N, e, q, r, s0, s1);
  }

  /** More digits are kept than the format holds. */
  lemma CutFacts(f: Format, v: seq<nat>, sticky: bool, q: int)
    requires f.Valid() && |v| > f.pmax && AllDigits(v) && v[0] != 0
    ensures Drop(f, NumDigits(Dec(Kept(v, sticky))), q) >= 1
    ensures !sticky ==> Dec(Kept(v, sticky)) == Dec(v)
    ensures sticky ==> Dec(Kept(v, sticky)) % 5 != 0 && Dec(Kept(v, sticky)) / 5 == Dec(v) / 5
  {
    hide Dec, Pow10, NumDigits, Kept;
    KeptValue(v, sticky);
    DecLength(Kept(v, sticky));
  }

  lemma AtTail(N: nat, e: int, q: int)
    requires q >= e
    ensures NumAt(N, e, q) == N && DenAt(e, q) == Pow10(q - e)
  {
  }

  /** The last digit made sticky leaves the number within its run of five. */
  lemma KeptValue(v: seq<nat>, sticky: bool)
    requires |v| > 1 && AllDigits(v)
    ensures AllDigits(Kept(v, sticky)) && Kept(v, sticky)[0] == v[0]
    ensures !sticky ==> Dec(Kept(v, sticky)) == Dec(v)
    ensures sticky ==> Dec(Kept(v, sticky)) % 5 != 0 && Dec(Kept(v, sticky)) / 5 == Dec(v) / 5
  {
    hide *;
    KeptParts(v);
    if sticky {
      var n := |v| - 1;
      KeptDigits(v[..n], v[n]);
      DecSnoc(v[..n], v[n]);
      DecSnoc(v[..n], StickyDigit(v[n]));
      StickyRun(Dec(v[..n]), v[n]);
    }
  }

  lemma KeptParts(v: seq<nat>)
    requires |v| > 1 && AllDigits(v)
    ensures var n := |v| - 1;
      && Kept(v, false) == v == v[..n] + [v[n]] && Kept(v, true) == v[..n] + [StickyDigit(v[n])]
      && AllDigits(v[..n]) && v[n] <= 9
  {
    hide Dec;
  }

  lemma KeptDigits(u: seq<nat>, d: nat)
    requires u != [] && AllDigits(u) && d <= 9
    ensures AllDigits(u + [StickyDigit(d)])
  {
  }

  /** A sticky digit is no multiple of five and stays in its run of five. */
  lemma StickyRun(a: nat, d: nat)
    requires d <= 9
    ensures (10 * a + StickyDigit(d)) % 5 != 0 && (10 * a + StickyDigit(d)) / 5 == (10 * a + d) / 5
  {
    var s, h := StickyDigit(d), if d < 5 then 0 else 1;
    DivModUnique(10 * a + d, 5, 2 * a + h, d - 5 * h);
    DivModUnique(10 * a + s, 5, 2 * a + h, s - 5 * h);
  }

  lemma CutCell(v: nat, M: nat, N: nat, t: nat, p: nat)
    requires N == v * p + t && 0 < t < p && M % 5 != 0 && M / 5 == v / 5
    ensures ShareCell(N, p, M, M / 5, 5)
  {
    var k, d := v / 5, v % 5;
    assert v == 5 * k + d && M == 5 * k + M % 5;
    assert v * p == k * 5 * p + d * p;
    MulLe(d + 1, 5, p);
    assert (d + 1) * p == d * p + p && (k + 1) * 5 * p == k * 5 * p + 5 * p;
  }
}
