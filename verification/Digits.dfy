/** Strings of decimal digits, most significant first (the bcd8 strings of the source). */
module Digits {
  import opened Powers

  /** The integer a digit string denotes. */
  function Dec(s: seq<nat>): nat {
    if s == [] then 0 else 10 * Dec(s[..|s| - 1]) + s[|s| - 1]
  }

  predicate AllDigits(s: seq<nat>) {
    forall i :: 0 <= i < |s| ==> s[i] <= 9
  }

  lemma SamePart<T>(s: seq<T>, t: seq<T>, a: nat, b: nat)
    requires a <= b <= |s| == |t| && forall i :: a <= i < b ==> s[i] == t[i]
    ensures s[a..b] == t[a..b]
  {
  }

  lemma Slices<T>(s: seq<T>, a: nat, b: nat, c: nat)
    requires a <= b <= c <= |s|
    ensures s[a..c] == s[a..b] + s[b..c]
  {
  }

  lemma RightPart<T>(s: seq<T>, i: nat)
    requires i <= |s|
    ensures s[i..] == s[i..|s|]
  {
  }

  lemma DigitsJoin(s: seq<nat>, t: seq<nat>)
    requires AllDigits(s) && AllDigits(t)
    ensures AllDigits(s + t)
  {
  }

  /** Part of a string of digits is a string of digits. */
  lemma DigitsWithin(s: seq<nat>, lo: nat, hi: nat, i: nat, j: nat)
    requires lo <= i <= j <= hi <= |s| && AllDigits(s[lo..hi])
    ensures AllDigits(s[i..j])
  {
    forall k | 0 <= k < j - i
      ensures s[i..j][k] <= 9
    {
      assert s[i..j][k] == s[lo..hi][i - lo + k];
    }
  }

  predicate AllOf(s: seq<nat>, d: nat) {
    forall i :: 0 <= i < |s| ==> s[i] == d
  }

  lemma {:induction false} DecAppend(a: seq<nat>, b: seq<nat>)
    ensures Dec(a + b) == Dec(a) * Pow10(|b|) + Dec(b)
    decreases |b|
  {
    if b == [] {
      assert a + b == a;
    } else {
      var b' := b[..|b| - 1];
      assert (a + b)[..|a + b| - 1] == a + b';
      DecAppend(a, b');
      assert Dec(a) * (10 * Pow10(|b'|)) == 10 * (Dec(a) * Pow10(|b'|));
    }
  }

  /** Cutting a string after i digits. */
  lemma DecCut(s: seq<nat>, i: nat)
    requires i <= |s|
    ensures Dec(s) == Dec(s[..i]) * Pow10(|s| - i) + Dec(s[i..])
  {
    assert s == s[..i] + s[i..];
    DecAppend(s[..i], s[i..]);
  }

  lemma {:induction false} DecBound(s: seq<nat>)
    requires AllDigits(s)
    ensures Dec(s) < Pow10(|s|)
  {
    if s != [] {
      DecBound(s[..|s| - 1]);
    }
  }

  lemma {:induction false} DecZeros(s: seq<nat>)
    requires AllOf(s, 0)
    ensures Dec(s) == 0
  {
    if s != [] {
      DecZeros(s[..|s| - 1]);
    }
  }

  lemma {:induction false} DecNines(s: seq<nat>)
    requires AllOf(s, 9)
    ensures Dec(s) == Pow10(|s|) - 1
  {
    if s != [] {
      DecNines(s[..|s| - 1]);
    }
  }

  /** Only a string of zeros denotes zero. */
  lemma {:induction false} DecZeroOnly(s: seq<nat>, i: nat)
    requires i < |s| && s[i] != 0
    ensures Dec(s) > 0
  {
    if i < |s| - 1 {
      DecZeroOnly(s[..|s| - 1], i);
    }
  }

  /** Leading zeros are insignificant. */
  lemma DecLeading(s: seq<nat>, i: nat)
    requires i <= |s| && AllOf(s[..i], 0)
    ensures Dec(s) == Dec(s[i..])
  {
    hide *;
    DecCut(s, i);
    DecZeros(s[..i]);
  }

  /** Zeros in front of a string of digits. */
  lemma DecPadded(s: seq<nat>, a: nat, b: nat, c: nat)
    requires a <= b <= c <= |s| && AllOf(s[a..b], 0) && AllDigits(s[b..c])
    ensures AllDigits(s[a..c]) && Dec(s[a..c]) == Dec(s[b..c])
  {
    hide Dec;
    var t := s[a..c];
    Slices(s, a, b, c);
    DigitsJoin(s[a..b], s[b..c]);
    assert t[..b - a] == s[a..b] && t[b - a..] == s[b..c];
    DecLeading(t, b - a);
  }

  /** Zeros behind a string of digits. */
  lemma DecTrailing(s: seq<nat>, a: nat, b: nat, c: nat)
    requires a <= b <= c <= |s| && AllOf(s[b..c], 0) && AllDigits(s[a..b])
    ensures AllDigits(s[a..c]) && Dec(s[a..c]) == Dec(s[a..b]) * Pow10(c - b)
  {
    hide Dec, Pow10;
    Slices(s, a, b, c);
    DigitsJoin(s[a..b], s[b..c]);
    DecPad(s[a..b], s[b..c]);
  }

  lemma DecOne(d: nat)
    ensures Dec([d]) == d
  {
    assert [d][..0] == [];
  }

  /** A non-zero leading digit fixes the number of digits. */
  lemma DecLength(s: seq<nat>)
    requires s != [] && AllDigits(s) && s[0] != 0
    ensures Pow10(|s| - 1) <= Dec(s) < Pow10(|s|)
    ensures NumDigits(Dec(s)) == |s|
  {
    DecBound(s);
    DecCut(s, 1);
    assert s[..1] == [s[0]];
    DecOne(s[0]);
    MulLe(1, s[0], Pow10(|s| - 1));
    NumDigitsUnique(Dec(s), |s|);
  }

  /** Appending zeros multiplies by a power of ten. */
  lemma DecPad(s: seq<nat>, z: seq<nat>)
    requires AllOf(z, 0)
    ensures Dec(s + z) == Dec(s) * Pow10(|z|)
  {
    DecAppend(s, z);
    DecZeros(z);
  }

  /** Strings of the same length are ordered, and told apart, by their values. */
  lemma {:induction false} DecInjective(a: seq<nat>, b: seq<nat>)
    requires |a| == |b| && AllDigits(a) && AllDigits(b) && Dec(a) == Dec(b)
    ensures a == b
  {
    if a != [] {
      var n := |a| - 1;
      DecInjective(a[..n], b[..n]);
      assert a == a[..n] + [a[n]] && b == b[..n] + [b[n]];
    }
  }

  lemma DecSnoc(s: seq<nat>, d: nat)
    ensures Dec(s + [d]) == 10 * Dec(s) + d
  {
    assert (s + [d])[..|s|] == s;
  }

  lemma IncrementHead(s: seq<nat>, t: seq<nat>, i: nat) returns (a: nat)
    requires i < |s| == |t| && s[..i] == t[..i] && t[i] == s[i] + 1
    ensures a == Dec(s[..i + 1]) && Dec(t[..i + 1]) == a + 1
  {
    a := Dec(s[..i + 1]);
    assert s[..i + 1] == s[..i] + [s[i]] && t[..i + 1] == t[..i] + [t[i]];
    DecSnoc(s[..i], s[i]);
    DecSnoc(t[..i], t[i]);
  }

  /** Adding one: the trailing nines turn to zeros and the digit before them goes up. */
  lemma DecIncrement(s: seq<nat>, t: seq<nat>, i: nat)
    requires i < |s| == |t| && s[..i] == t[..i] && t[i] == s[i] + 1
    requires AllOf(s[i + 1..], 9) && AllOf(t[i + 1..], 0)
    ensures Dec(t) == Dec(s) + 1
  {
    var a := IncrementHead(s, t, i);
    DecCut(s, i + 1);
    DecCut(t, i + 1);
    DecNines(s[i + 1..]);
    DecZeros(t[i + 1..]);
    CarryUp(a, Pow10(|s| - i - 1), Dec(s), Dec(t));
  }

  lemma CarryUp(a: nat, p: nat, u: nat, v: nat)
    requires u == a * p + (p - 1) && v == (a + 1) * p
    ensures v == u + 1
  {
  }

  lemma DecLastDigit(s: seq<nat>)
    requires s != [] && AllDigits(s)
    ensures Dec(s) % 10 == s[|s| - 1]
  {
  }

  /** A non-zero digit contributes at least its place. */
  lemma DecPlace(s: seq<nat>, t: nat)
    requires t < |s| && s[t] != 0
    ensures Dec(s) >= Pow10(|s| - 1 - t)
  {
    DecCut(s, t + 1);
    DecZeroOnly(s[..t + 1], t);
    MulLe(1, Dec(s[..t + 1]), Pow10(|s| - 1 - t));
  }

  /** Digits above the value are zeros. */
  lemma DecBelow(s: seq<nat>, k: nat)
    requires k <= |s| && Dec(s) < Pow10(k)
    ensures AllOf(s[..|s| - k], 0) && Dec(s[|s| - k..]) == Dec(s)
  {
    hide Dec, Pow10;
    var i := |s| - k;
    forall t | 0 <= t < i
      ensures s[t] == 0
    {
      if s[t] != 0 {
        DecPlace(s, t);
        Pow10Monotone(k, |s| - 1 - t);
      }
    }
    DecLeading(s, i);
  }
}
