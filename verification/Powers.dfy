/** Powers of ten, digit counts and the integer-division facts the rest of the model rests on. */
module Powers {

  function Pow10(n: nat): (p: nat)
    ensures p >= 1
  {
    if n == 0 then 1 else 10 * Pow10(n - 1)
  }

  lemma {:induction false} Pow10Add(a: nat, b: nat)
    ensures Pow10(a + b) == Pow10(a) * Pow10(b)
  {
    if a == 0 {
    } else {
      Pow10Add(a - 1, b);
      MulAssoc(10, Pow10(a - 1), Pow10(b));
    }
  }

  lemma TimesOne(c: nat)
    ensures c * Pow10(0) == c
  {
  }

  lemma Pow10Next(n: nat)
    ensures Pow10(n + 1) == 10 * Pow10(n)
  {
  }

  lemma {:induction false} Pow10Grows(a: nat, b: nat)
    requires a < b
    ensures 10 * Pow10(a) <= Pow10(b)
    decreases b
  {
    if a < b - 1 {
      Pow10Grows(a, b - 1);
    }
  }

  lemma Pow10Monotone(a: nat, b: nat)
    requires a <= b
    ensures Pow10(a) <= Pow10(b)
  {
    if a < b {
      Pow10Grows(a, b);
    }
  }

  /** The exponent is recovered from an ordering of powers. */
  lemma Pow10Order(a: nat, b: nat)
    requires Pow10(a) < Pow10(b)
    ensures a < b
  {
    if b <= a {
      Pow10Monotone(b, a);
    }
  }

  /** 10^(b-a) is the quotient of the two powers. */
  lemma Pow10Split(a: nat, b: nat)
    requires a <= b
    ensures Pow10(b) == Pow10(a) * Pow10(b - a)
  {
    Pow10Add(a, b - a);
  }

  // ---- plain arithmetic, kept away from the definitions above ----

  lemma MulAssoc(a: int, b: int, c: int)
    ensures a * b * c == a * (b * c)
  {
  }

  lemma MulLe(a: int, b: int, c: int)
    requires a <= b && 0 <= c
    ensures a * c <= b * c && c * a <= c * b
  {
  }

  lemma MulLt(a: int, b: int, c: int)
    requires a < b && 0 < c
    ensures a * c < b * c && c * a < c * b
  {
  }

  /** Dividing a comparison by a positive factor. */
  lemma CancelLt(a: int, b: int, c: int)
    requires 0 <= c && a * c < b * c
    ensures a < b
  {
    if b <= a {
      MulLe(b, a, c);
    }
  }

  lemma CancelLe(a: int, b: int, c: int)
    requires 0 < c && a * c <= b * c
    ensures a <= b
  {
    if b < a {
      MulLt(b, a, c);
    }
  }

  /** Quotient and remainder are determined by their defining equation. */
  lemma DivModUnique(n: int, d: int, q: int, r: int)
    requires 0 <= r < d && n == q * d + r
    ensures n / d == q && n % d == r
  {
    var q1, r1 := n / d, n % d;
    assert n == q1 * d + r1;
    assert (q1 + 1) * d == q1 * d + d && (q + 1) * d == q * d + d;
    if q1 < q {
      MulLe(q1 + 1, q, d);
    } else if q < q1 {
      MulLe(q + 1, q1, d);
    }
  }

  lemma DivModFact(n: int, d: int)
    requires d > 0
    ensures n == (n / d) * d + n % d && 0 <= n % d < d
  {
  }

  function Quotient(c: nat, p: nat): nat
    requires p > 0
  {
    c / p
  }

  /** A common positive factor changes the remainder only. */
  lemma DivModScale(n: nat, d: int, t: int)
    requires d > 0 && t > 0
    ensures d * t > 0
    ensures (n * t) / (d * t) == n / d
    ensures (n * t) % (d * t) == (n % d) * t
  {
    var q, r := n / d, n % d;
    MulLt(r, d, t);
    MulLt(0, d, t);
    assert n * t == q * (d * t) + r * t by {
      assert n == q * d + r;
      assert (q * d + r) * t == q * d * t + r * t;
      MulAssoc(q, d, t);
    }
    DivModUnique(n * t, d * t, q, r * t);
  }

  // ---- the number of decimal digits of a coefficient ----

  /** Digits needed to write c; a zero still takes one. */
  function NumDigits(c: nat): (k: nat)
    ensures k >= 1
    ensures c < Pow10(k)
    ensures c > 0 ==> Pow10(k - 1) <= c
  {
    if c < 10 then 1 else NumDigits(c / 10) + 1
  }

  /** The digit count is pinned by the powers around the number. */
  lemma NumDigitsUnique(c: nat, k: nat)
    requires k >= 1 && c < Pow10(k) && (k == 1 || Pow10(k - 1) <= c)
    ensures NumDigits(c) == k
  {
    var l := NumDigits(c);
    if l < k {
      Pow10Monotone(l, k - 1);
    } else if k < l {
      Pow10Monotone(k, l - 1);
    }
  }

  lemma DigitsAtLeast(c: nat, n: nat)
    requires n >= 1 && Pow10(n - 1) <= c
    ensures n <= NumDigits(c)
  {
    hide Pow10, NumDigits;
    var k := NumDigits(c);
    if k <= n - 1 {
      Pow10Monotone(k, n - 1);
    }
  }

  /** A bound on a number bounds its digits. */
  lemma DigitsAtMost(c: nat, n: nat)
    requires n >= 1 && c < Pow10(n)
    ensures NumDigits(c) <= n
  {
    if c > 0 {
      hide Pow10, NumDigits;
      var k: nat := NumDigits(c) - 1;
      if n <= k {
        Pow10Monotone(n, k);
      }
    }
  }
}
