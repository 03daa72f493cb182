/** A number of any length: decimal digits, least significant first, two to a unit. */
module DecNumbers {
  import opened Digits

  /** DECDPUN: the digits a unit holds. */
  const DIGITS_PER_UNIT: nat := 2

  /** One digit of an array of units. */
  function UnitDigit(lsu: seq<nat>, i: nat): nat
    requires i / 2 < |lsu|
  {
    if i % 2 == 0 then lsu[i / 2] % 10 else lsu[i / 2] / 10
  }

  /** The first n digits. */
  function DigitsOf(lsu: seq<nat>, n: nat): (d: seq<nat>)
    requires n <= 2 * |lsu|
    ensures |d| == n
  {
    seq(n, i requires 0 <= i < n => UnitDigit(lsu, i))
  }

  /** The number that digits make, least significant first. */
  function Value(d: seq<nat>): nat {
    if d == [] then 0 else d[0] + 10 * Value(d[1..])
  }

  /** Two digits to a unit: units count in hundreds, and of the last one an odd digit uses the lower half. */
  lemma {:induction false} UnitsWorth(lsu: seq<nat>, n: nat)
    requires 0 < n <= 2 * |lsu| && lsu[0] <= 99
    ensures Value(DigitsOf(lsu, n)) == if n == 1 then lsu[0] % 10 else lsu[0] + 100 * Value(DigitsOf(lsu[1..], n - 2))
  {
    var d := DigitsOf(lsu, n);
    if n == 1 {
      assert d[1..] == [];
    } else {
      assert d[1..][1..] == DigitsOf(lsu[1..], n - 2);
    }
  }

  /** The most significant digit is not zero, unless it is the only one. */
  predicate Trimmed(d: seq<nat>) {
    d != [] && AllDigits(d) && (|d| > 1 ==> d[|d| - 1] != 0)
  }

  /** An ordinary number, or one of the special values; the digits of a NaN are its payload. */
  datatype Kind = Ordinary | Infinity | QuietNaN | SignalingNaN

  class DecNumber {
    var digits: nat
    var exponent: int
    var neg: bool
    var kind: Kind
    var lsu: array<nat>

    /** The units in use hold digits, and the last of them no more than are counted. */
    predicate Valid()
      reads this, lsu
    {
      && 0 < digits <= 2 * lsu.Length
      && (forall i :: 0 <= i < (digits + 1) / 2 ==> lsu[i] <= 99)
      && (digits % 2 == 1 ==> lsu[digits / 2] <= 9)
      && Trimmed(Digits())
    }

    function Digits(): (d: seq<nat>)
      requires 0 < digits <= 2 * lsu.Length
      reads this, lsu
      ensures |d| == digits
    {
      DigitsOf(lsu[..], digits)
    }

    /** Sets the number to zero (decNumberZero). */
    method Zero()
      requires lsu.Length > 0
      modifies this`digits, this`exponent, this`neg, this`kind, lsu
      ensures digits == 1 && exponent == 0 && !neg && kind == Ordinary && Valid() && Digits() == [0] && lsu[0] == 0
    {
      digits, exponent, neg, kind := 1, 0, false, Ordinary;
      lsu[0] := 0;
    }
  }

  /** A reciprocal multiplication and a shift divide by ten. */
  lemma Tenth(u: nat)
    requires u <= 255
    ensures u * 6554 / 0x1_0000 == u / 10
  {
  }

  /** Zeros above the most significant digit removed, but one digit left. */
  function Trim(d: seq<nat>): seq<nat> {
    if |d| > 1 && d[|d| - 1] == 0 then Trim(d[..|d| - 1]) else d
  }

  lemma {:induction false} TrimPadded(d: seq<nat>, z: seq<nat>)
    requires Trimmed(d) && AllOf(z, 0)
    ensures Trim(d + z) == d
  {
    var s := d + z;
    if z == [] {
      assert s == d;
    } else {
      assert s[..|s| - 1] == d + z[..|z| - 1];
      TrimPadded(d, z[..|z| - 1]);
    }
  }

  lemma {:induction false} PadTrimmed(d: seq<nat>)
    requires d != []
    ensures var t := Trim(d);
      && 0 < |t| <= |d| && t == d[..|t|] && AllOf(d[|t|..], 0) && (AllDigits(d) ==> Trimmed(t))
  {
    if |d| > 1 && d[|d| - 1] == 0 {
      var s := d[..|d| - 1];
      PadTrimmed(s);
      var t := Trim(d);
      assert s[..|t|] == d[..|t|];
      forall i | 0 <= i < |d| - |t|
        ensures d[|t|..][i] == 0
      {
        if |t| + i < |s| { assert s[|t|..][i] == 0; }
      }
    } else {
      assert d[..|d|] == d;
    }
  }

  /** How many digits are left once leading zeros are gone, given a position above which there are only zeros. */
  lemma {:induction false} TrimLength(d: seq<nat>, n: nat)
    requires 0 < n <= |d| && AllOf(d[n..], 0) && (n > 1 ==> d[n - 1] != 0)
    ensures Trim(d) == d[..n]
  {
    if |d| == n {
      assert d[..n] == d;
    } else {
      var s, z := d[..|d| - 1], d[n..];
      assert d[|d| - 1] == z[|z| - 1];
      assert s[n..] == z[..|z| - 1];
      TrimLength(s, n);
      assert s[..n] == d[..n];
    }
  }
}
