/** decFinalize: the single place where a digit string becomes a datum of the format. */
module Finalize {
  import opened Powers
  import opened Digits
  import opened Formats
  import opened Rounding
  import opened Integers

  // exponents from here up are codes for special values
  const MIN_SPECIAL := 0x7800_0000
  const INF_CODE := 0x7800_0000
  const QNAN_CODE := 0x7c00_0000
  const SNAN_CODE := 0x7e00_0000

  /** A number being finished: a digit string inside a buffer, a sign and an exponent. */
  class BcdNum {
    var buf: array<nat>
    var msd: nat
    var lsd: nat
    var neg: bool
    var exponent: int

    constructor (buf: array<nat>, msd: nat, lsd: nat, neg: bool, exponent: int)
      ensures this.buf == buf && this.msd == msd && this.lsd == lsd
      ensures this.neg == neg && this.exponent == exponent
    {
      this.buf, this.msd, this.lsd, this.neg, this.exponent := buf, msd, lsd, neg, exponent;
    }

    predicate Valid()
      reads this, buf
    {
      && msd <= lsd < buf.Length
      && AllDigits(buf[msd..lsd + 1])
      && (exponent < MIN_SPECIAL || exponent in {INF_CODE, QNAN_CODE, SNAN_CODE})
    }

    function Coefficient(): nat
      requires Valid()
      reads this, buf
    {
      Dec(buf[msd..lsd + 1])
    }
  }

  /** Skips leading zeros, four at a time while that is safe, keeping the last digit. */
  method SkipZeros(buf: array<nat>, msd: nat, lsd: nat) returns (umsd: nat)
    requires msd <= lsd < buf.Length
    ensures msd <= umsd <= lsd
    ensures Dec(buf[umsd..lsd + 1]) == Dec(buf[msd..lsd + 1])
    ensures umsd == lsd || buf[umsd] != 0
    ensures AllDigits(buf[msd..lsd + 1]) ==> AllDigits(buf[umsd..lsd + 1])
  {
    hide Dec;
    umsd := msd;
    if buf[umsd] == 0 {
      while umsd + 3 < lsd && buf[umsd] == 0 && buf[umsd + 1] == 0 && buf[umsd + 2] == 0 && buf[umsd + 3] == 0
        invariant msd <= umsd <= lsd
        invariant forall i :: msd <= i < umsd ==> buf[i] == 0
      {
        umsd := umsd + 4;
      }
      while umsd < lsd && buf[umsd] == 0
        invariant msd <= umsd <= lsd
        invariant forall i :: msd <= i < umsd ==> buf[i] == 0
      {
        umsd := umsd + 1;
      }
    }
    ghost var s := buf[msd..lsd + 1];
    assert buf[umsd..lsd + 1] == s[umsd - msd..];
    assert AllOf(s[..umsd - msd], 0);
    DecLeading(s, umsd - msd);
  }

  /** The re-round digit once a non-zero digit has been seen to its right (DECSTICKYTAB). */
  function StickyDigit(d: nat): nat {
    if d == 0 then 1 else if d == 5 then 6 else d
  }

  /** Applies the sticky bit if any digit of buf[from..to] is non-zero. */
  method CheckStickies(buf: array<nat>, from: nat, to: nat, digit: nat) returns (reround: nat)
    requires from <= to <= buf.Length
    ensures reround == if Dec(buf[from..to]) != 0 then StickyDigit(digit) else digit
  {
    reround := digit;
    var ub := from;
    while ub < to
      invariant from <= ub <= to && reround == digit
      invariant forall i :: from <= i < ub ==> buf[i] == 0
    {
      if buf[ub] != 0 {
        DecZeroOnly(buf[from..to], ub - from);
        reround := StickyDigit(reround);
        return;
      }
      ub := ub + 1;
    }
    DecZeros(buf[from..to]);
  }

  /** The re-round digit's verdict, mode by mode. */
  function Bump(m: Mode, neg: bool, reround: nat, lsd: nat): bool {
    match m
    case HalfEven => reround > 5 || (reround == 5 && lsd % 2 == 1)
    case Down => false
    case HalfDown => reround > 5
    case HalfUp => reround >= 5
    case Up => reround > 0
    case Ceiling => !neg && reround > 0
    case Floor => neg && reround > 0
    case ReRound05 => reround > 0 && (lsd == 0 || lsd == 5)
  }

  /** The re-round digit places the residue r relative to zero and to half of d. */
  predicate Places(reround: nat, r: nat, d: nat) {
    && (reround == 0 <==> r == 0)
    && (reround > 5 <==> 2 * r > d)
    && (reround == 5 <==> 2 * r == d)
  }

  lemma BumpIsRounding(m: Mode, neg: bool, reround: nat, n: nat, d: nat, lsd: nat)
    requires d > 0 && Places(reround, n % d, d) && lsd == (n / d) % 10
    ensures RoundInt(m, neg, n, d) == n / d + if Bump(m, neg, reround, lsd) && reround != 0 then 1 else 0
  {
    var q := n / d;
    assert lsd % 2 == q % 2;
  }

  /** First dropped digit plus sticky bit: enough to place the whole dropped tail. */
  lemma TailPlaces(tail: seq<nat>, reround: nat)
    requires tail != [] && AllDigits(tail)
    requires reround == if Dec(tail[1..]) != 0 then StickyDigit(tail[0]) else tail[0]
    ensures Places(reround, Dec(tail), Pow10(|tail|))
  {
    var p, d, r := Pow10(|tail| - 1), tail[0], Dec(tail[1..]);
    DecCut(tail, 1);
    assert tail[..1] == [d];
    DecOne(d);
    DecBound(tail[1..]);
    PlaceDigit(d, p, r);
  }

  lemma PlaceDigit(d: nat, p: nat, r: nat)
    requires p > 0 && r < p && d <= 9
    ensures Places(if r != 0 then StickyDigit(d) else d, d * p + r, 10 * p)
  {
    if d > 5 { MulLe(6, d, p); } else if d < 5 { MulLe(d, 4, p); }
    if d > 0 { MulLe(1, d, p); }
  }

  /** Turns the trailing nines of umsd..ulsd into zeros; ub is the digit left of them. */
  method ClearNines(buf: array<nat>, umsd: nat, ulsd: nat) returns (ub: int)
    requires umsd <= ulsd < buf.Length
    modifies buf
    ensures umsd - 1 <= ub <= ulsd
    ensures forall i :: 0 <= i < buf.Length && !(ub < i <= ulsd) ==> buf[i] == old(buf[i])
    ensures forall i :: ub < i <= ulsd ==> old(buf[i]) == 9 && buf[i] == 0
    ensures ub >= umsd ==> buf[ub] != 9
  {
    ub := ulsd;
    while ub - 3 >= umsd && buf[ub - 3] == 9 && buf[ub - 2] == 9 && buf[ub - 1] == 9 && buf[ub] == 9
      invariant umsd - 1 <= ub <= ulsd
      invariant forall i :: 0 <= i < buf.Length && !(ub < i <= ulsd) ==> buf[i] == old(buf[i])
      invariant forall i :: ub < i <= ulsd ==> old(buf[i]) == 9 && buf[i] == 0
    {
      buf[ub - 3], buf[ub - 2], buf[ub - 1], buf[ub] := 0, 0, 0, 0;
      ub := ub - 4;
    }
    while ub >= umsd && buf[ub] == 9
      invariant umsd - 1 <= ub <= ulsd
      invariant forall i :: 0 <= i < buf.Length && !(ub < i <= ulsd) ==> buf[i] == old(buf[i])
      invariant forall i :: ub < i <= ulsd ==> old(buf[i]) == 9 && buf[i] == 0
    {
      buf[ub] := 0;
      ub := ub - 1;
    }
  }

  /** Adds one to the digits umsd..ulsd in place; reports a carry out of all nines. */
  method Increment(buf: array<nat>, umsd: nat, ulsd: nat) returns (carried: bool)
    requires umsd <= ulsd < buf.Length && AllDigits(buf[umsd..ulsd + 1])
    modifies buf
    ensures forall i :: 0 <= i < buf.Length && !(umsd <= i <= ulsd) ==> buf[i] == old(buf[i])
    ensures AllDigits(buf[umsd..ulsd + 1])
    ensures carried ==> AllOf(old(buf[umsd..ulsd + 1]), 9) && AllOf(buf[umsd..ulsd + 1], 0)
    ensures !carried ==> Dec(buf[umsd..ulsd + 1]) == old(Dec(buf[umsd..ulsd + 1])) + 1
  {
    ghost var was := buf[umsd..ulsd + 1];
    var ub := ClearNines(buf, umsd, ulsd);
    carried := ub < umsd;
    if !carried {
      assert was[ub - umsd] == buf[ub];
      buf[ub] := buf[ub] + 1;
      DecIncrement(was, buf[umsd..ulsd + 1], ub - umsd);
    }
  }

  /** The value of the digits kept, and of those cut off. */
  lemma CutValue(kept: seq<nat>, tail: seq<nat>)
    requires AllDigits(tail)
    ensures Dec(kept + tail) / Pow10(|tail|) == Dec(kept) && Dec(kept + tail) % Pow10(|tail|) == Dec(tail)
  {
    DecAppend(kept, tail);
    DecBound(tail);
    DivModUnique(Dec(kept + tail), Pow10(|tail|), Dec(kept), Dec(tail));
  }

  lemma SmallValue(s: seq<nat>, drop: nat)
    requires AllDigits(s) && drop >= |s|
    ensures Dec(s) / Pow10(drop) == 0 && Dec(s) % Pow10(drop) == Dec(s)
    ensures drop > |s| ==> 2 * Dec(s) < Pow10(drop)
  {
    DecBound(s);
    Pow10Monotone(|s|, drop);
    if drop > |s| { Pow10Grows(|s|, drop); }
    DivModUnique(Dec(s), Pow10(drop), 0, Dec(s));
  }

  /** The tail cut off at roundat, condensed to a re-round digit (some digits remain). */
  method ReRoundInside(buf: array<nat>, umsd: nat, roundat: nat, ulsd: nat) returns (reround: nat)
    requires umsd <= roundat <= ulsd < buf.Length && AllDigits(buf[umsd..ulsd + 1])
    ensures var c, p := Dec(buf[umsd..ulsd + 1]), Pow10(ulsd + 1 - roundat);
      c / p == Dec(buf[umsd..roundat]) && Places(reround, c % p, p)
  {
    reround := CheckStickies(buf, roundat + 1, ulsd + 1, buf[roundat]);
    ghost var tail := buf[roundat..ulsd + 1];
    assert tail[1..] == buf[roundat + 1..ulsd + 1];
    assert buf[umsd..ulsd + 1] == buf[umsd..roundat] + tail;
    CutValue(buf[umsd..roundat], tail);
    TailPlaces(tail, reround);
  }

  /** The whole string is below the re-round digit. */
  method ReRoundBelow(buf: array<nat>, umsd: nat, ulsd: nat, drop: nat) returns (reround: nat)
    requires umsd <= ulsd < buf.Length && AllDigits(buf[umsd..ulsd + 1]) && drop > ulsd + 1 - umsd
    ensures var c, p := Dec(buf[umsd..ulsd + 1]), Pow10(drop);
      c / p == 0 && Places(reround, c % p, p)
  {
    reround := CheckStickies(buf, umsd, ulsd + 1, 0);
    SmallValue(buf[umsd..ulsd + 1], drop);
  }

  /** The re-round digit for dropping the low drop digits of umsd..ulsd. */
  method ReRoundDigit(buf: array<nat>, umsd: nat, ulsd: nat, drop: nat) returns (reround: nat)
    requires umsd <= ulsd < buf.Length && AllDigits(buf[umsd..ulsd + 1]) && drop > 0
    ensures var c, p, length := Dec(buf[umsd..ulsd + 1]), Pow10(drop), ulsd + 1 - umsd;
      && Places(reround, c % p, p)
      && c / p == if drop < length then Dec(buf[umsd..ulsd + 1 - drop]) else 0
  {
    var length := ulsd - umsd + 1;
    if drop < length {
      reround := ReRoundInside(buf, umsd, umsd + length - drop, ulsd);
    } else if drop == length {
      reround := ReRoundInside(buf, umsd, umsd, ulsd);
      assert buf[umsd..umsd] == [];
    } else {
      reround := ReRoundBelow(buf, umsd, ulsd, drop);
    }
  }

  /** Cuts off the low drop digits and condenses them to one re-round digit. */
  method CutTail(buf: array<nat>, umsd: nat, ulsd: nat, drop: nat) returns (reround: nat, lsd: nat)
    requires umsd <= ulsd < buf.Length && AllDigits(buf[umsd..ulsd + 1]) && drop > 0
    modifies buf
    ensures umsd <= lsd <= ulsd && AllDigits(buf[umsd..lsd + 1])
    ensures var c, p := old(Dec(buf[umsd..ulsd + 1])), Pow10(drop);
      Dec(buf[umsd..lsd + 1]) == c / p && Places(reround, c % p, p)
    ensures if drop < ulsd + 1 - umsd then lsd == ulsd - drop && buf[umsd] == old(buf[umsd])
            else lsd == umsd && buf[umsd] == 0
    ensures forall i :: 0 <= i < buf.Length && i != umsd ==> buf[i] == old(buf[i])
  {
    reround := ReRoundDigit(buf, umsd, ulsd, drop);
    if drop < ulsd + 1 - umsd {
      lsd := ulsd - drop;
      assert buf[umsd..lsd + 1] == buf[umsd..ulsd + 1][..lsd + 1 - umsd];
    } else {
      buf[umsd] := 0;
      lsd := umsd;
      DecOne(0);
      assert buf[umsd..lsd + 1] == [0];
    }
  }

  /** Replaces carried-out zeros by 1000...; a full-length coefficient moves its exponent,
      a shorter (subnormal) one grows by a digit. */
  method PlaceCarry(f: Format, buf: array<nat>, umsd: nat, ulsd: nat, exponent: int) returns (lsd: nat, exp: int)
    requires umsd <= ulsd && ulsd + 1 < buf.Length && AllOf(buf[umsd..ulsd + 1], 0)
    modifies buf
    ensures var len := ulsd + 1 - umsd;
      if len == f.pmax then lsd == ulsd && exp == exponent + 1 && Dec(buf[umsd..lsd + 1]) == Pow10(len - 1)
      else lsd == ulsd + 1 && exp == exponent && Dec(buf[umsd..lsd + 1]) == Pow10(len)
    ensures AllDigits(buf[umsd..lsd + 1]) && buf[umsd] == 1
  {
    buf[umsd] := 1;
    if ulsd - umsd + 1 == f.pmax {
      lsd, exp := ulsd, exponent + 1;
    } else {
      lsd, exp := ulsd + 1, exponent;
      buf[lsd] := 0;
    }
    DecOne(1);
    assert buf[umsd..lsd + 1] == [1] + buf[umsd + 1..lsd + 1];
    DecPad([1], buf[umsd + 1..lsd + 1]);
  }

  /** The coefficient and exponent rounding must leave behind. */
  predicate RoundedTo(f: Format, k: nat, q: int, c: nat, exp: int)
    requires f.Valid()
  {
    if k == Pow10(f.pmax) then c == Pow10(f.pmax - 1) && exp == q + 1 else c == k && exp == q
  }

  predicate Minimal(buf: array<nat>, umsd: nat, lsd: nat)
    reads buf
  {
    umsd <= lsd < buf.Length && AllDigits(buf[umsd..lsd + 1]) && (umsd == lsd || buf[umsd] != 0)
  }

  /** Increments the kept coefficient, carrying into a new digit or exponent. */
  method RoundUp(f: Format, buf: array<nat>, umsd: nat, ulsd: nat, exponent: int) returns (lsd: nat, exp: int)
    requires f.Valid() && Minimal(buf, umsd, ulsd) && ulsd + 1 - umsd <= f.pmax
    requires ulsd + 1 < buf.Length || buf[ulsd] == 0
    modifies buf
    ensures Minimal(buf, umsd, lsd) && lsd + 1 - umsd <= f.pmax
    ensures RoundedTo(f, old(Dec(buf[umsd..ulsd + 1])) + 1, exponent, Dec(buf[umsd..lsd + 1]), exp)
  {
    hide Dec, Pow10;
    ghost var kept := buf[umsd..ulsd + 1];
    Pow10Monotone(|kept|, f.pmax);
    var carried := Increment(buf, umsd, ulsd);
    if carried {
      assert kept[ulsd - umsd] == 9;
      DecNines(kept);
      if |kept| < f.pmax { Pow10Grows(|kept|, f.pmax); }
      lsd, exp := PlaceCarry(f, buf, umsd, ulsd, exponent);
    } else {
      lsd, exp := ulsd, exponent;
      DecBound(buf[umsd..lsd + 1]);
      StillMinimal(kept, buf[umsd..lsd + 1]);
    }
  }

  /** A string of the same length with a larger value still starts with a non-zero digit. */
  lemma StillMinimal(s: seq<nat>, t: seq<nat>)
    requires |s| == |t| > 0 && AllDigits(s) && AllDigits(t) && Dec(s) < Dec(t)
    requires |s| == 1 || s[0] != 0
    ensures |t| == 1 || t[0] != 0
  {
    if |s| > 1 && t[0] == 0 {
      DecLength(s);
      DecLeading(t, 1);
      DecBound(t[1..]);
    }
  }

  /** Rounds the digit string to its leading digits in the context's mode. */
  method RoundOff(f: Format, set_: Context, buf: array<nat>, umsd: nat, ulsd: nat, neg: bool, exponent: int, drop: nat)
    returns (lsd: nat, exp: int)
    requires f.Valid() && Minimal(buf, umsd, ulsd)
    requires drop == Drop(f, ulsd + 1 - umsd, exponent) > 0
    modifies buf, set_`status
    ensures Minimal(buf, umsd, lsd) && lsd + 1 - umsd <= f.pmax
    ensures RoundedTo(f, RoundInt(set_.round, neg, old(Dec(buf[umsd..ulsd + 1])), Pow10(drop)), exponent + drop,
                      Dec(buf[umsd..lsd + 1]), exp)
    ensures set_.status == old(set_.status) +
      if old(Dec(buf[umsd..ulsd + 1])) % Pow10(drop) == 0 then {}
      else if exponent + (ulsd + 1 - umsd) - 1 < f.emin then {Inexact, Underflow}
      else {Inexact}
  {
    hide Dec, Pow10, RoundInt, Bump, Places;
    var reround;
    ghost var c := Dec(buf[umsd..ulsd + 1]);
    reround, lsd := CutTail(buf, umsd, ulsd, drop);
    exp := exponent + drop;
    DecLastDigit(buf[umsd..lsd + 1]);
    BumpIsRounding(set_.round, neg, reround, c, Pow10(drop), buf[lsd]);
    ShortKept(f, buf[umsd..lsd + 1]);
    if reround != 0 {
      set_.status := set_.status + {Inexact};
      if exp < f.emin && exp + (lsd - umsd + 1) - 1 < f.emin {
        set_.status := set_.status + {Underflow};
      }
      if Bump(set_.round, neg, reround, buf[lsd]) {
        lsd, exp := RoundUp(f, buf, umsd, lsd, exp);
      }
    }
  }

  lemma ShortKept(f: Format, kept: seq<nat>)
    requires |kept| <= f.pmax && AllDigits(kept)
    ensures Dec(kept) < Pow10(f.pmax)
  {
    DecBound(kept);
    Pow10Monotone(|kept|, f.pmax);
  }

  /** Stores a finite result: clamps a zero, overflows, or folds down a large exponent. */
  method StoreFinite(f: Format, set_: Context, buf: array<nat>, umsd: nat, ulsd: nat, neg: bool, exponent: int)
    returns (r: DecFloat)
    requires f.Valid() && Minimal(buf, umsd, ulsd) && ulsd + 1 - umsd <= f.pmax && exponent >= f.Qtiny()
    modifies set_`status
    ensures var o := Clamp(f, set_.round, neg, Dec(buf[umsd..ulsd + 1]), exponent - f.Qtiny(), {});
      r == o.df && set_.status == old(set_.status) + o.flags
  {
    var length := ulsd - umsd + 1;
    ghost var s := buf[umsd..ulsd + 1];
    if length == 1 { DecOne(buf[umsd]); assert s == [buf[umsd]]; } else { DecLength(s); }
    InRange(f, s, exponent);
    var coef, exp := Dec(buf[umsd..ulsd + 1]), exponent;
    if exponent > f.Qmax() {
      if buf[ulsd] == 0 && ulsd == umsd {
        exp := f.Qmax();
      } else if exponent + length - 1 > f.emax {
        set_.status := set_.status + {Overflow, Inexact};
        var needmax := match set_.round
          case Down => true
          case ReRound05 => true
          case Ceiling => neg
          case Floor => !neg
          case _ => false;
        if !needmax {
          return Infinite(neg);
        }
        coef, exp := Pow10(f.pmax) - 1, f.Qmax();
      } else {
        var shift := exponent - f.Qmax();
        coef := FoldDown(f, buf, umsd, ulsd, shift);
        exp := exponent - shift;
      }
    }
    r := Finite(neg, coef, exp);
  }

  /** A coefficient of len digits overflows exactly when its adjusted exponent is above emax. */
  lemma InRange(f: Format, s: seq<nat>, exponent: int)
    requires f.Valid() && s != [] && AllDigits(s) && |s| <= f.pmax && exponent >= f.Qtiny()
    requires Dec(s) > 0 ==> Pow10(|s| - 1) <= Dec(s)
    ensures var j := exponent - f.Qtiny();
      Dec(s) > 0 ==> (Dec(s) * Pow10(j) >= Pow10(f.pmax + f.Top()) <==> exponent + |s| - 1 > f.emax)
  {
    var j := exponent - f.Qtiny();
    DecBound(s);
    if Dec(s) > 0 {
      Pow10Add(|s|, j);
      Pow10Add(|s| - 1, j);
      MulLt(Dec(s), Pow10(|s|), Pow10(j));
      MulLe(Pow10(|s| - 1), Dec(s), Pow10(j));
      if exponent + |s| - 1 > f.emax {
        Pow10Monotone(f.pmax + f.Top(), |s| - 1 + j);
      } else {
        Pow10Monotone(|s| + j, f.pmax + f.Top());
      }
    }
  }

  /** Copies the digits to a fresh buffer and pads them with zeros on the right. */
  method FoldDown(f: Format, buf: array<nat>, umsd: nat, ulsd: nat, shift: nat) returns (c: nat)
    requires umsd <= ulsd < buf.Length && ulsd + 1 - umsd + shift <= f.pmax
    ensures c == Dec(buf[umsd..ulsd + 1]) * Pow10(shift)
  {
    var n := ulsd + 1 - umsd;
    var buffer := new nat[f.pmax + 3];
    var tlsd := n - 1 + shift;
    for i := 0 to n
      invariant buffer[..i] == buf[umsd..umsd + i]
    {
      buffer[i] := buf[umsd + i];
    }
    for t := n to tlsd + 1
      invariant buffer[..n] == buf[umsd..umsd + n] && AllOf(buffer[n..t], 0)
    {
      buffer[t] := 0;
    }
    assert buffer[0..tlsd + 1] == buf[umsd..ulsd + 1] + buffer[n..tlsd + 1];
    DecPad(buf[umsd..ulsd + 1], buffer[n..tlsd + 1]);
    c := Dec(buffer[0..tlsd + 1]);
  }

  /** The flags the rounding stage raises. */
  function RoundingFlags(f: Format, c: nat, e: int, len: nat): set<Flag> {
    if c % Pow10(Max(0, Drop(f, len, e))) == 0 then {}
    else if e + len - 1 < f.emin then {Inexact, Underflow}
    else {Inexact}
  }

  lemma FlagsMeet(f: Format, neg: bool, c: nat, e: int, len: nat)
    requires f.Valid() && len >= 1 && c < Pow10(len) && (len == 1 || Pow10(len - 1) <= c)
    ensures RoundingFlags(f, c, e, len) == RoundFlags(f, ExactOf(f, neg, c, 1, e), e + Max(0, Drop(f, len, e)) - f.Qtiny())
  {
    var drop := Max(0, Drop(f, len, e));
    RoundCoarser(f, Down, neg, c, 1, e, e + drop);
    if c % Pow10(drop) != 0 {
      NonZeroTail(c, drop);
      TinyByExponent(f, neg, c, e, len);
    }
  }

  lemma NonZeroTail(c: nat, drop: nat)
    requires c % Pow10(drop) != 0
    ensures c > 0 && Pow10(0) <= c
  {
    if c == 0 {
      DivModUnique(0, Pow10(drop), 0, 0);
    }
  }

  /** The two stages together are the specified outcome. */
  lemma FinalizeMeets(f: Format, m: Mode, neg: bool, c: nat, e: int, len: nat, k: nat, exp: int, r: DecFloat, s0: set<Flag>, s1: set<Flag>)
    requires f.Valid() && len >= 1 && c < Pow10(len) && (len == 1 || Pow10(len - 1) <= c)
    requires var drop := Max(0, Drop(f, len, e));
      RoundedTo(f, RoundInt(m, neg, c, Pow10(drop)), e + drop, k, exp)
    requires exp >= f.Qtiny()
    requires var o := Clamp(f, m, neg, k, exp - f.Qtiny(), {});
      r == o.df && s1 == s0 + RoundingFlags(f, c, e, len) + o.flags
    ensures Rounded(f, m, ExactOf(f, neg, c, 1, e), r, s0, s1)
  {
    hide Pow10, ExactOf, Quantum, RoundInt, Clamp, RoundFlags, RoundingFlags, Finish;
    var drop := Max(0, Drop(f, len, e));
    var x, j := ExactOf(f, neg, c, 1, e), e + drop - f.Qtiny();
    DropRounds(f, m, neg, c, e, len);
    FlagsMeet(f, neg, c, e, len);
    ClampFlags(f, m, neg, k, exp - f.Qtiny(), RoundFlags(f, x, j));
    assert r == Finish(f, m, x, j).df && s1 == s0 + Finish(f, m, x, j).flags;
  }

  lemma ClampFlags(f: Format, m: Mode, neg: bool, k: nat, j: nat, flags: set<Flag>)
    requires f.Valid()
    ensures var o, o' := Clamp(f, m, neg, k, j, flags), Clamp(f, m, neg, k, j, {});
      o.df == o'.df && o.flags == o'.flags + flags
  {
  }

  /** The exponent a string keeps when nothing is dropped, or gets when something is. */
  lemma KeptInRange(f: Format, len: nat, e: int)
    requires f.Valid()
    ensures e + Max(0, Drop(f, len, e)) >= f.Qtiny()
  {
  }

  /** Rounds a minimal digit string if it is too long or too fine for the format. */
  method RoundIfNeeded(f: Format, set_: Context, num: BcdNum, umsd: nat, ulsd: nat) returns (lsd: nat)
    requires f.Valid() && Minimal(num.buf, umsd, ulsd)
    modifies num`exponent, num.buf, set_`status
    ensures Minimal(num.buf, umsd, lsd) && lsd + 1 - umsd <= f.pmax
    ensures var c, len, e := old(Dec(num.buf[umsd..ulsd + 1])), ulsd + 1 - umsd, old(num.exponent);
      var drop := Max(0, Drop(f, len, e));
      && RoundedTo(f, RoundInt(set_.round, num.neg, c, Pow10(drop)), e + drop, Dec(num.buf[umsd..lsd + 1]), num.exponent)
      && num.exponent >= f.Qtiny()
      && set_.status == old(set_.status) + RoundingFlags(f, c, e, len)
  {
    var drop := Drop(f, ulsd + 1 - umsd, num.exponent);
    KeptInRange(f, ulsd + 1 - umsd, num.exponent);
    if drop > 0 {
      var exp;
      lsd, exp := RoundOff(f, set_, num.buf, umsd, ulsd, num.neg, num.exponent, drop);
      num.exponent := exp;
    } else {
      lsd := ulsd;
      NothingDropped(f, set_.round, num.neg, num.buf[umsd..ulsd + 1]);
    }
  }

  /** The finite path of decFinalize. */
  method FinalizeFinite(f: Format, num: BcdNum, set_: Context) returns (r: DecFloat)
    requires f.Valid() && num.Valid() && num.exponent < MIN_SPECIAL
    modifies num`exponent, num.buf, set_`status
    ensures Rounded(f, set_.round, ExactOf(f, num.neg, old(num.Coefficient()), 1, old(num.exponent)), r,
                    old(set_.status), set_.status)
  {
    hide RoundedTo, RoundInt, Clamp, Drop, RoundingFlags, Dec, Pow10, ExactOf, Rounded;
    var umsd := SkipZeros(num.buf, num.msd, num.lsd);
    StringLength(num.buf[umsd..num.lsd + 1]);
    ghost var c, e := Dec(num.buf[umsd..num.lsd + 1]), num.exponent;
    var lsd := RoundIfNeeded(f, set_, num, umsd, num.lsd);
    r := StoreFinite(f, set_, num.buf, umsd, lsd, num.neg, num.exponent);
    FinalizeMeets(f, set_.round, num.neg, c, e, num.lsd + 1 - umsd, Dec(num.buf[umsd..lsd + 1]), num.exponent, r,
                  old(set_.status), set_.status);
  }

  /** decFinalize: round, range-check and store; specials are stored as they are. */
  method DecFinalize(f: Format, num: BcdNum, set_: Context) returns (r: DecFloat)
    requires f.Valid() && num.Valid()
    modifies num`exponent, num.buf, set_`status
    ensures old(num.exponent) < MIN_SPECIAL ==>
      Rounded(f, set_.round, ExactOf(f, num.neg, old(num.Coefficient()), 1, old(num.exponent)), r,
              old(set_.status), set_.status)
    ensures old(num.exponent) >= MIN_SPECIAL ==> set_.status == old(set_.status)
    ensures old(num.exponent) == INF_CODE ==> r == Infinite(num.neg)
    ensures old(num.exponent) in {QNAN_CODE, SNAN_CODE} ==>
      r == NaN(num.neg, old(num.exponent) == SNAN_CODE, old(num.Coefficient()) % Pow10(f.pmax - 1))
  {
    if num.exponent < MIN_SPECIAL {
      r := FinalizeFinite(f, num, set_);
    } else if num.exponent == INF_CODE {
      r := Infinite(num.neg);
    } else {
      r := NaN(num.neg, num.exponent == SNAN_CODE, Dec(num.buf[num.msd..num.lsd + 1]) % Pow10(f.pmax - 1));
    }
  }

  lemma StringLength(s: seq<nat>)
    requires s != [] && AllDigits(s) && (|s| == 1 || s[0] != 0)
    ensures Dec(s) < Pow10(|s|) && (|s| == 1 || Pow10(|s| - 1) <= Dec(s))
  {
    DecBound(s);
    if |s| > 1 {
      DecLength(s);
    }
  }

  lemma NothingDropped(f: Format, m: Mode, neg: bool, s: seq<nat>)
    requires f.Valid() && AllDigits(s) && |s| <= f.pmax
    ensures Dec(s) % Pow10(0) == 0 && RoundInt(m, neg, Dec(s), Pow10(0)) == Dec(s) < Pow10(f.pmax)
  {
    ShortKept(f, s);
    DivModUnique(Dec(s), 1, Dec(s), 0);
  }
}
