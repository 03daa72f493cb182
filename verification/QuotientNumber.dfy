/** The quotient of two finite non-zero operands as an unrounded number (decDivide up to its dispatch). */
module QuotientNumber {
  import opened Powers
  import opened Digits
  import opened Billions
  import opened Formats
  import opened Finalize
  import opened LongDivision
  import opened QuotientUnits
  import opened DivideLoop
  import opened QuotientLayout

  /** The divisor in units, its length and its estimator. */
  method PrepareDivisor(f: Format, coef: nat) returns (div: array<nat>, n: nat, divtop: nat)
    requires Arithmetic(f) && 0 < coef < Pow10(f.pmax)
    ensures fresh(div) && Divisor(div, n, divtop) && n <= f.OpLen() && Bill(div[..n]) == coef
  {
    div := new nat[f.OpLen()];
    GetCoeffBill(f, coef, div, 0);
    ghost var s := div[..];
    assert s == div[0..f.OpLen()];
    n := f.OpLen();
    assert s[..n] == s;
    while n > 0 && div[n - 1] == 0
      invariant n <= f.OpLen() && Bill(s[..n]) == coef && s == div[..]
      decreases n
    {
      assert s[..n] == s[..n - 1] + [0];
      BillSnoc(s[..n - 1], 0);
      n := n - 1;
    }
    assert s[..0] == [] && Bill([]) == 0;
    assert div[..n] == s[..n];
    divtop := EstimatorTop(div, n);
  }

  /** The dividend at the top of the accumulator, zeros below. */
  method PrepareDividend(f: Format, coef: nat) returns (acc: array<nat>)
    requires Arithmetic(f) && 0 < coef < Pow10(f.pmax)
    ensures fresh(acc) && Aligned(f, acc[..], coef)
  {
    var l := f.OpLen();
    acc := new nat[3 * l];
    GetCoeffBill(f, coef, acc, 2 * l);
    ghost var top := acc[2 * l..];
    assert top == acc[2 * l..2 * l + l];
    for i := 0 to 2 * l
      invariant forall k :: 0 <= k < i ==> acc[k] == 0
      invariant acc[2 * l..] == top
    {
      acc[i] := 0;
    }
    assert acc[..][2 * l..] == top;
    assert forall i :: 2 * l <= i < 3 * l ==> acc[i] == top[i - 2 * l];
  }

  /** The exponent and least digit once any extra input positions are accounted for. */
  method SettleExponent(f: Format, ghost n: nat, ghost d: nat, bcd: array<nat>, msd: nat, lsd: nat, ghost c: nat,
                        ghost q: nat, ghost r: nat, ghost u: nat, ghost rest: nat, lsua: nat, inexact: bool, e: int)
    returns (lsd': nat, e': int)
    requires Arithmetic(f) && d > 0 && LaidOut(bcd[..], msd, lsd, c)
    requires Leaves(f, lsua, n, q, d, r, inexact)
    requires LowBitSet(q, c, inexact) && (inexact ==> q >= Pow10(f.pmax + 1))
    requires !inexact && lsua < 2 * f.OpLen() ==> 0 < u < BILLION && q == u + BILLION * rest
    ensures msd <= lsd' <= lsd && e' <= e
    ensures LaidOut(bcd[..], msd, lsd', Dec(bcd[msd..lsd' + 1]))
    ensures Stands(f, n, d, e, Dec(bcd[msd..lsd' + 1]), e', inexact)
  {
    var extra := 2 * f.OpLen() - lsua;
    ScaledSplit(f, n, d, q, r, lsua, inexact);
    assert bcd[..][msd..lsd + 1] == bcd[msd..lsd + 1] && c == Dec(bcd[msd..lsd + 1]);
    assert bcd[msd] != 0 && 1 <= msd <= lsd < bcd.Length && AllDigits(bcd[msd..lsd + 1]);
    hide Dec, Pow10, PowB, Leaves, Stands, Splits, LaidOut, AllDigits, Arithmetic;
    lsd', e' := lsd, e - extra * 9;
    if lsua < 2 * f.OpLen() && !inexact {
      lsd' := DropZeros(bcd, msd, lsd);
      e' := e' + (lsd - lsd');
      FewerDigits(bcd[..], msd, lsd, lsd', c);
      ZerosDropped(f, n, d, e, extra, q, bcd[msd..lsd' + 1], lsd - lsd', u, rest);
    } else if inexact {
      InexactStands(f, n, d, e, c, e', q, r);
    } else {
      ExactStands(f, n, d, e, c);
    }
  }

  lemma ScaledSplit(f: Format, n: nat, d: nat, q: nat, r: nat, lsua: nat, inexact: bool)
    requires Leaves(f, lsua, n, q, d, r, inexact)
    ensures lsua <= 2 * f.OpLen() && r < d && (inexact <==> r > 0)
    ensures Splits(n * Pow10(9 * (2 * f.OpLen() - lsua)), q, d, r)
  {
    PowBIsPow10(2 * f.OpLen() - lsua);
  }

  lemma ExactStands(f: Format, n: nat, d: nat, e: int, q: nat)
    requires Splits(n * Pow10(9 * 0), q, d, 0)
    ensures Stands(f, n, d, e, q, e - 0 * 9, false)
  {
    assert Pow10(0) == 1;
  }

  lemma ZerosDropped(f: Format, n: nat, d: nat, e: int, k: nat, q: nat, s: seq<nat>, z: nat, u: nat, rest: nat)
    requires d > 0 && k > 0 && s != [] && 0 < s[|s| - 1] <= 9 && q == Dec(s) * Pow10(z)
    requires Splits(n * Pow10(9 * k), q, d, 0) && q == u + BILLION * rest && 0 < u < BILLION
    ensures z <= 8 && Stands(f, n, d, e, Dec(s), e - k * 9 + z, false)
  {
    FewZeros(q, d, n, k, Dec(s), z, u, rest);
    LastNonZero(s);
  }

  lemma FewerDigits(bcd: seq<nat>, msd: nat, lsd: nat, lsd': nat, c: nat)
    requires LaidOut(bcd, msd, lsd, c) && msd <= lsd' <= lsd
    ensures LaidOut(bcd, msd, lsd', Dec(bcd[msd..lsd' + 1]))
  {
    assert bcd[msd..lsd' + 1] == bcd[msd..lsd + 1][..lsd' + 1 - msd];
  }

  lemma InexactStands(f: Format, n: nat, d: nat, e: int, c: nat, e': int, q: nat, r: nat)
    requires e' <= e && 0 < r < d && Splits(n * Pow10(e - e'), q, d, r)
    requires c % 2 == 1 && (c == q || c == q + 1) && q >= Pow10(f.pmax + 1)
    ensures Stands(f, n, d, e, c, e', true)
  {
    BetweenRemainder(n * Pow10(e - e'), q, d, r);
    assert Truncated(f, n, d, e, c, e', q);
  }

  lemma LastNonZero(s: seq<nat>)
    requires s != [] && s[|s| - 1] != 0 && s[|s| - 1] <= 9
    ensures Dec(s) % 10 != 0
  {
  }

  lemma BetweenRemainder(n: nat, q: nat, d: nat, r: nat)
    requires 0 < r < d && n == q * d + r
    ensures Between(n, d, q)
  {
    assert (q + 1) * d == q * d + d;
  }

  /** The last unit of the quotient, and how many digits an inexact one has. */
  lemma LowUnit(f: Format, n: nat, d: nat, quo: seq<nat>, lsua: nat, lsuq: nat, quodigits: nat, inexact: bool)
    returns (rest: nat, r: nat)
    requires Quotients(f, n, d, quo, lsua, lsuq, quodigits, inexact)
    ensures lsuq < |quo| && Leaves(f, lsua, n, Bill(quo[lsuq..]), d, r, inexact)
    ensures quo[lsuq] < BILLION && Bill(quo[lsuq..]) == quo[lsuq] + BILLION * rest
    ensures !inexact && lsua < 2 * f.OpLen() ==> quo[lsuq] > 0
    ensures inexact ==> Bill(quo[lsuq..]) >= Pow10(f.pmax + 1)
  {
    var s := quo[lsuq..];
    assert s[0] == quo[lsuq] < BILLION;
    rest := Bill(s[1..]);
    r :| Leaves(f, lsua, n, Bill(quo[lsuq..]), d, r, inexact);
    if inexact {
      Pow10Monotone(f.pmax + 1, quodigits - 1);
    }
  }

  lemma LaidNumber(buf: seq<nat>, msd: nat, lsd: nat, c: nat)
    requires LaidOut(buf, msd, lsd, c)
    ensures msd <= lsd < |buf| && AllDigits(buf[msd..lsd + 1]) && Dec(buf[msd..lsd + 1]) == c
  {
  }

  /** The whole quotient: prepare, divide, lay out, settle. */
  method MakeQuotient(f: Format, cl: nat, cr: nat, e: int, neg: bool) returns (num: BcdNum, ghost inexact: bool)
    requires Arithmetic(f) && 0 < cl < Pow10(f.pmax) && 0 < cr < Pow10(f.pmax) && e < MIN_SPECIAL
    ensures fresh(num) && fresh(num.buf) && num.Valid() && num.neg == neg && num.exponent <= e
    ensures Stands(f, cl, cr, e, num.Coefficient(), num.exponent, inexact)
    ensures LaidOut(num.buf[..], num.msd, num.lsd, num.Coefficient())
    ensures num.buf.Length == 9 * (f.OpLen() + 1) + 2
  {
    hide Bill, Pow10, Dec, Aligned, Divisor, Quotients, Stands, LaidOut, LowBitSet, Leaves, Arithmetic, AllUnits, AllDigits;
    var acc := PrepareDividend(f, cl);
    var div, n, divtop := PrepareDivisor(f, cr);
    var quo := new nat[f.OpLen() + 1];
    var lsua, lsuq, quodigits, left := LongDivide(f, cl, acc, quo, div, n, divtop);
    ghost var rest, r := LowUnit(f, cl, cr, quo[..], lsua, lsuq, quodigits, left);
    ghost var q, u := Bill(quo[..][lsuq..]), quo[lsuq];
    var bcd, msd, lsd, c := LayOut(f, cl, cr, quo, lsua, lsuq, quodigits, left);
    var lsd', e' := SettleExponent(f, cl, cr, bcd, msd, lsd, c, q, r, u, rest, lsua, left, e);
    LaidNumber(bcd[..], msd, lsd', Dec(bcd[msd..lsd' + 1]));
    inexact := left;
    num := new BcdNum(bcd, msd, lsd', neg, e');
  }
}
