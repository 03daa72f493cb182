/** decFloatQuantize: the left operand at the right operand's exponent. */
module Quantize {
  import opened Powers
  import opened Digits
  import opened Formats
  import opened Rounding
  import opened Modes
  import opened Specials
  import opened Finalize
  import opened Coefficients
  import opened IntegerQuotient

  // ---- dropping digits ----

  /** Clears what lies between the P digits of the result and the digits already there. */
  method ClearLeft(buf: array<nat>, from: nat, top: nat, lsd: nat)
    requires from <= top <= lsd < buf.Length && AllDigits(buf[top..lsd + 1])
    modifies buf
    ensures AllDigits(buf[from..lsd + 1]) && Dec(buf[from..lsd + 1]) == old(Dec(buf[top..lsd + 1]))
  {
    ghost var s := buf[top..lsd + 1];
    hide Dec, AllDigits;
    for i := from to top
      invariant buf[top..lsd + 1] == s && AllOf(buf[from..i], 0)
    {
      buf[i] := 0;
    }
    DecPadded(buf[..], from, top, lsd + 1);
  }

  /** The rounded digits, where they end, and where they start. */
  method RoundDigits(buf: array<nat>, off: nat, P: nat, drop: nat, neg: bool, set_: Context) returns (top: nat, lsd: nat)
    requires off >= 1 && P > 0 && off + P <= buf.Length && AllDigits(buf[off..off + P]) && drop > 0 && buf[off - 1] == 0
    modifies buf, set_`status
    ensures off - 1 <= top <= lsd < off + P && top <= off && (lsd == off || lsd + drop == off + P - 1)
    ensures AllDigits(buf[top..lsd + 1])
    ensures var c, p := old(Dec(buf[off..off + P])), Pow10(drop);
      && Dec(buf[top..lsd + 1]) == RoundInt(set_.round, neg, c, p)
      && set_.status == old(set_.status) + if c % p == 0 then {} else {Inexact}
  {
    ghost var c := Dec(buf[off..off + P]);
    assert off + P - 1 + 1 == off + P;
    hide *;
    var reround;
    reround, lsd := CutTail(buf, off, off + P - 1, drop);
    ghost var kept := buf[off..lsd + 1];
    DecLastDigit(kept);
    assert kept[lsd - off] == buf[lsd];
    BumpIsRounding(set_.round, neg, reround, c, Pow10(drop), buf[lsd]);
    top := off;
    if reround != 0 {
      set_.status := set_.status + {Inexact};
      if Bump(set_.round, neg, reround, buf[lsd]) {
        top := BumpDigits(buf, off, lsd);
      }
    }
  }

  /** Rounds the P digits at buf[off] after dropping the last drop of them; the result is the P
      digits that end at lsd, any in front of the rounded ones being zero. */
  method DropDigits(buf: array<nat>, off: nat, P: nat, drop: nat, neg: bool, set_: Context) returns (lsd: nat)
    requires off >= P + 4 && P > 1 && off + P <= buf.Length && AllDigits(buf[off..off + P]) && drop > 0
    modifies buf, set_`status
    ensures P <= lsd + 1 < buf.Length + 1 && AllDigits(buf[lsd + 1 - P..lsd + 1])
    ensures var c, p := old(Dec(buf[off..off + P])), Pow10(drop);
      && Dec(buf[lsd + 1 - P..lsd + 1]) == RoundInt(set_.round, neg, c, p)
      && set_.status == old(set_.status) + if c % p == 0 then {} else {Inexact}
  {
    hide *;
    ghost var was := buf[..];
    buf[off - 4], buf[off - 3], buf[off - 2], buf[off - 1] := 0, 0, 0, 0;
    SamePart(was, buf[..], off, off + P);
    var top;
    top, lsd := RoundDigits(buf, off, P, drop, neg, set_);
    ClearLeft(buf, lsd + 1 - P, top, lsd);
  }

  // ---- padding ----

  lemma JoinZeros(s: seq<nat>, a: seq<nat>, b: seq<nat>)
    requires s == a + b && AllOf(a, 0)
    ensures AllOf(s, 0) <==> AllOf(b, 0)
  {
    assert forall i :: 0 <= i < |b| ==> b[i] == s[|a| + i];
    assert forall i :: 0 <= i < |s| ==> s[i] == if i < |a| then a[i] else b[i - |a|];
  }

  lemma WordZeros(s: seq<nat>, a: nat, t: nat, e: nat)
    requires a <= t && t + 4 <= e <= |s| && AllOf(s[a..t], 0)
    ensures var zero := s[t] == 0 && s[t + 1] == 0 && s[t + 2] == 0 && s[t + 3] == 0;
      if zero then AllOf(s[a..t + 4], 0) else !AllOf(s[a..e], 0)
  {
    var u := s[a..e];
    assert u[t - a] == s[t] && u[t + 1 - a] == s[t + 1] && u[t + 2 - a] == s[t + 2] && u[t + 3 - a] == s[t + 3];
    assert s[a..t + 4] == s[a..t] + [s[t], s[t + 1], s[t + 2], s[t + 3]];
  }

  /** Whether the first k of the digits at buf[off] are zero, a word at a time with a mask at the end. */
  method LeadingClear(buf: array<nat>, off: nat, k: nat) returns (clear: bool)
    requires k > 0 && off + k + 3 <= buf.Length
    ensures clear <==> AllOf(buf[off..off + k], 0)
  {
    var t := 0;
    while true
      invariant 0 <= t < k && AllOf(buf[off..off + t], 0)
      decreases k - t
    {
      hide AllOf;
      if t + 4 <= k {
        WordZeros(buf[..], off, off + t, off + k);
        if buf[off + t] != 0 || buf[off + t + 1] != 0 || buf[off + t + 2] != 0 || buf[off + t + 3] != 0 {
          return false;
        }
        t := t + 4;
        if t >= k {
          return true;
        }
      } else {
        clear := AllZero(buf, off + t, off + k);
        Slices(buf[..], off, off + t, off + k);
        JoinZeros(buf[off..off + k], buf[off..off + t], buf[off + t..off + k]);
        return;
      }
    }
  }

  /** Appends k zeros to the P digits at buf[off], unless the number grows too long. */
  method PadDigits(buf: array<nat>, off: nat, P: nat, k: nat) returns (fits: bool, lsd: nat)
    requires P > 1 && off + P <= buf.Length && off + 2 * P + 3 <= buf.Length && AllDigits(buf[off..off + P]) && k > 0
    modifies buf
    ensures var c := old(Dec(buf[off..off + P]));
      && (fits <==> c * Pow10(k) < Pow10(P))
      && (fits ==> P <= lsd + 1 <= buf.Length && AllDigits(buf[lsd + 1 - P..lsd + 1])
                   && Dec(buf[lsd + 1 - P..lsd + 1]) == c * Pow10(k))
  {
    hide Dec, Pow10, AllDigits;
    ghost var s := buf[off..off + P];
    lsd := off + P - 1;
    if k > P - 1 {
      fits := AllZero(buf, off, off + P);
      TooFar(s, k);
      return;
    }
    fits := LeadingClear(buf, off, k);
    assert buf[off..off + k] == s[..k];
    LeadingRoom(s, k);
    if fits {
      FillZeros(buf, off, P, k);
      lsd := lsd + k;
      DecLeading(s, k);
    }
  }

  lemma RightOf(s: seq<nat>, t: seq<nat>, a: nat, b: nat, k: nat)
    requires a + k <= b <= |s| == |t| && s[..b] == t[..b] && AllDigits(s[a..b])
    ensures t[a + k..b] == s[a..b][k..] && AllDigits(t[a + k..b])
  {
    DigitsWithin(s, a, b, a + k, b);
    assert s[a + k..b] == s[..b][a + k..];
  }

  /** Zeros to the right; the digits that then matter are the last P. */
  method FillZeros(buf: array<nat>, off: nat, P: nat, k: nat)
    requires k < P && off + P + k <= buf.Length && AllDigits(buf[off..off + P])
    modifies buf
    ensures AllDigits(buf[off + k..off + P + k])
    ensures Dec(buf[off + k..off + P + k]) == old(Dec(buf[off..off + P][k..])) * Pow10(k)
  {
    hide Dec, Pow10, AllDigits;
    ghost var was := buf[..];
    for i := off + P to off + P + k
      invariant AllOf(buf[off + P..i], 0) && buf[..off + P] == was[..off + P]
    {
      buf[i] := 0;
    }
    RightOf(was, buf[..], off, off + P, k);
    DecTrailing(buf[..], off + k, off + P, off + P + k);
  }

  lemma TooFar(s: seq<nat>, k: nat)
    requires s != [] && AllDigits(s) && k >= |s|
    ensures AllOf(s, 0) <==> Dec(s) * Pow10(k) < Pow10(|s|)
    ensures AllOf(s, 0) ==> Dec(s) == Dec(s) * Pow10(k) == 0
  {
    hide Dec, Pow10;
    Pow10Monotone(|s|, k);
    if AllOf(s, 0) {
      DecZeros(s);
    } else {
      var i :| 0 <= i < |s| && s[i] != 0;
      DecZeroOnly(s, i);
      MulLe(1, Dec(s), Pow10(k));
    }
  }

  /** The padded number fits exactly when that many leading digits are zero. */
  lemma LeadingRoom(s: seq<nat>, k: nat)
    requires AllDigits(s) && 0 < k < |s|
    ensures AllOf(s[..k], 0) <==> Dec(s) * Pow10(k) < Pow10(|s|)
  {
    hide Dec, Pow10;
    Pow10Split(k, |s|);
    if AllOf(s[..k], 0) {
      DecLeading(s, k);
      DecBound(s[k..]);
      MulLt(Dec(s), Pow10(|s| - k), Pow10(k));
    } else {
      var i :| 0 <= i < k && s[..k][i] != 0;
      DecPlace(s, i);
      Pow10Monotone(|s| - k, |s| - 1 - i);
      MulLe(Pow10(|s| - k), Dec(s), Pow10(k));
    }
  }

  // ---- the operation ----

  /** What quantizing a finite x to the exponent of a finite y gives: x rounded there once, or
      nothing if its coefficient grows too long. */
  ghost predicate Quantized(f: Format, m: Mode, x: DecFloat, e: int, r: DecFloat, s0: set<Flag>, s1: set<Flag>)
    requires x.Finite?
  {
    if x.exp >= e then
      if x.coef * Pow10(x.exp - e) < Pow10(f.pmax) then r == Finite(x.neg, x.coef * Pow10(x.exp - e), e) && s1 == s0
      else r == DEFAULT_NAN && s1 == s0 + {InvalidOperation}
    else
      && r == Finite(x.neg, RoundInt(m, x.neg, x.coef, Pow10(e - x.exp)), e)
      && s1 == s0 + if x.coef % Pow10(e - x.exp) == 0 then {} else {Inexact}
  }

  /** The digits of a rounded or padded coefficient make the quantized result. */
  lemma QuantizedFits(f: Format, s: seq<nat>, neg: bool, e: int)
    requires f.Valid() && |s| == f.pmax && AllDigits(s) && f.Qtiny() <= e <= f.Qmax()
    ensures Finite(neg, Dec(s), e).Fits(f)
  {
    DecBound(s);
  }

  lemma AsIs(x: DecFloat, f: Format, m: Mode, s: set<Flag>)
    requires x.Finite? && x.Fits(f)
    ensures Quantized(f, m, x, x.exp, x, s, s)
  {
    assert x.coef * Pow10(0) == x.coef;
  }

  lemma Dropped(f: Format, m: Mode, x: DecFloat, e: int, c: nat, s0: set<Flag>, s1: set<Flag>)
    requires x.Finite? && x.exp < e && c == RoundInt(m, x.neg, x.coef, Pow10(e - x.exp))
    requires s1 == s0 + if x.coef % Pow10(e - x.exp) == 0 then {} else {Inexact}
    ensures Quantized(f, m, x, e, Finite(x.neg, c, e), s0, s1)
  {
  }

  lemma Padded(f: Format, m: Mode, x: DecFloat, e: int, fits: bool, c: nat, s: set<Flag>)
    requires x.Finite? && x.exp > e && (fits <==> x.coef * Pow10(x.exp - e) < Pow10(f.pmax))
    requires fits ==> c == x.coef * Pow10(x.exp - e)
    ensures if fits then Quantized(f, m, x, e, Finite(x.neg, c, e), s, s)
      else Quantized(f, m, x, e, DEFAULT_NAN, s, s + {InvalidOperation})
  {
  }

  lemma OperandFacts(f: Format, x: DecFloat, y: DecFloat)
    requires f.Valid() && x.Finite? && x.Fits(f) && y.Finite? && y.Fits(f)
    ensures f.pmax > 1 && x.coef < Pow10(f.pmax) && f.Qtiny() <= y.exp <= f.Qmax()
  {
  }

  /** Both operands finite. */
  method QuantizeFinite(f: Format, dfl: DecFloat, dfr: DecFloat, set_: Context) returns (r: DecFloat)
    requires f.Valid() && dfl.Finite? && dfl.Fits(f) && dfr.Finite? && dfr.Fits(f)
    modifies set_`status
    ensures Quantized(f, set_.round, dfl, dfr.exp, r, old(set_.status), set_.status)
    ensures r.Fits(f)
  {
    hide *;
    OperandFacts(f, dfl, dfr);
    var drop := dfr.exp - dfl.exp;
    if drop == 0 {
      AsIs(dfl, f, set_.round, set_.status);
      return dfl;
    }
    var P := f.pmax;
    var buf := new nat[4 + P * 3 + 4];
    var off := 4 + P;
    GetCoeff(dfl.coef, P, buf, off);
    var lsd;
    if drop > 0 {
      lsd := DropDigits(buf, off, P, drop, dfl.neg, set_);
      Dropped(f, set_.round, dfl, dfr.exp, Dec(buf[lsd + 1 - P..lsd + 1]), old(set_.status), set_.status);
    } else {
      var fits;
      fits, lsd := PadDigits(buf, off, P, 0 - drop);
      Padded(f, set_.round, dfl, dfr.exp, fits, if fits then Dec(buf[lsd + 1 - P..lsd + 1]) else 0, set_.status);
      if !fits {
        r := DecInvalid(set_);
        NanFits(f);
        return;
      }
    }
    QuantizedFits(f, buf[lsd + 1 - P..lsd + 1], dfl.neg, dfr.exp);
    r := Finite(dfl.neg, Dec(buf[lsd + 1 - P..lsd + 1]), dfr.exp);
  }

  lemma NanFits(f: Format)
    requires f.Valid()
    ensures DEFAULT_NAN.Fits(f)
  {
  }

  /** decFloatQuantize. */
  method DecFloatQuantize(f: Format, dfl: DecFloat, dfr: DecFloat, set_: Context) returns (r: DecFloat)
    requires f.Valid() && dfl.Fits(f) && dfr.Fits(f)
    modifies set_`status
    ensures dfl.Finite? && dfr.Finite? ==>
      Quantized(f, set_.round, dfl, dfr.exp, r, old(set_.status), set_.status) && r.Fits(f)
    ensures dfl.NaN? || dfr.NaN? ==> r == Propagated(dfl, dfr) && set_.status == old(set_.status) + NaNFlags(dfl, dfr)
    ensures !dfl.NaN? && !dfr.NaN? && dfl.Infinite? != dfr.Infinite? ==>
      r == DEFAULT_NAN && set_.status == old(set_.status) + {InvalidOperation}
    ensures dfl.Infinite? && dfr.Infinite? ==> r == dfl && set_.status == old(set_.status)
  {
    hide Quantized;
    if !dfl.Finite? || !dfr.Finite? {
      if dfl.NaN? || dfr.NaN? {
        r := DecNaNs(dfl, dfr, set_);
      } else if dfl.Infinite? != dfr.Infinite? {
        r := DecInvalid(set_);
      } else {
        r := dfl;
      }
    } else {
      r := QuantizeFinite(f, dfl, dfr, set_);
    }
  }

  /** The result fits, has the wanted exponent, and is x itself exactly when nothing was raised;
      Invalid operation means the exact value would need more digits than there are. */
  lemma QuantizedMeaning(f: Format, m: Mode, x: DecFloat, e: int, r: DecFloat, s1: set<Flag>)
    requires f.Valid() && x.Finite? && x.Fits(f) && f.Qtiny() <= e <= f.Qmax() && Quantized(f, m, x, e, r, {}, s1)
    ensures r.Finite? ==> r.exp == e && r.neg == x.neg
    ensures s1 == {} <==> r.Finite? && SameValue(x, r)
    ensures InvalidOperation in s1 <==> x.exp > e && x.coef * Pow10(x.exp - e) >= Pow10(f.pmax)
  {
    if x.exp == e {
      assert x.coef * Pow10(0) == x.coef;
    } else if x.exp < e {
      DroppedExactly(m, x.neg, x.coef, Pow10(e - x.exp));
    }
  }

  /** Two finite data with the same sign denote the same number. */
  predicate SameValue(x: DecFloat, y: DecFloat)
    requires x.Finite? && y.Finite?
  {
    if x.exp >= y.exp then x.coef * Pow10(x.exp - y.exp) == y.coef else y.coef * Pow10(y.exp - x.exp) == x.coef
  }

  lemma DroppedExactly(m: Mode, neg: bool, c: nat, p: nat)
    requires p > 0
    ensures RoundInt(m, neg, c, p) * p == c <==> c % p == 0
  {
    var q, r := c / p, c % p;
    DivModFact(c, p);
    assert (q + 1) * p == q * p + p;
  }

  /** Digits are dropped as the mode, by its name, asks: the result is less than one unit in its last place away, on the
      side the mode wants or at most half a unit away, ties as it says; Inexact exactly when it differs. */
  lemma QuantizedByMode(f: Format, m: Mode, x: DecFloat, e: int, r: DecFloat, s0: set<Flag>, s1: set<Flag>)
    requires x.Finite? && x.exp < e && Quantized(f, m, x, e, r, s0, s1)
    ensures r.Finite? && r.neg == x.neg && r.exp == e
    ensures var p, n := Pow10(e - x.exp), x.coef;
      var k := r.coef * p;
      && n - p < k < n + p && s1 == s0 + (if k == n then {} else {Inexact})
      && (m == Ceiling ==> if x.neg then k <= n else n <= k)
      && (m == Floor ==> if x.neg then n <= k else k <= n)
      && (m == Up ==> n <= k) && (m == Down ==> k <= n)
      && (m == HalfUp ==> 0 - p < 2 * k - 2 * n <= p)
      && (m == HalfDown ==> 0 - p <= 2 * k - 2 * n < p)
      && (m == HalfEven ==> 0 - p <= 2 * k - 2 * n <= p)
      && (m == HalfEven && (2 * k - 2 * n == p || 2 * k - 2 * n == 0 - p) ==> r.coef % 2 == 0)
      && (m == ReRound05 && k != n ==> r.coef % 5 != 0 && (n < k ==> r.coef % 5 == 1))
  {
    hide Pow10, RoundInt;
    IntegerByMode(m, x.neg, x.coef, Pow10(e - x.exp));
  }
}
