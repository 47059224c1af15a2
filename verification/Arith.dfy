/** Powers of two and the few facts about division the codecs rest on. */
module Arith {

  function Pow2(n: nat): (p: nat)
    ensures p > 0
  {
    if n == 0 then 1 else 2 * Pow2(n - 1)
  }

  lemma {:induction false} Pow2Add(a: nat, b: nat)
    ensures Pow2(a + b) == Pow2(a) * Pow2(b)
  {
    if a == 0 {
    } else {
      Pow2Add(a - 1, b);
    }
  }

  lemma {:induction false} Pow2Monotone(a: nat, b: nat)
    requires a <= b
    ensures Pow2(a) <= Pow2(b)
  {
    if a == b {
    } else {
      Pow2Monotone(a, b - 1);
    }
  }

  lemma Pow2Values()
    ensures Pow2(14) == 0x4000
    ensures Pow2(16) == 0x1_0000
    ensures Pow2(31) == 0x8000_0000
    ensures Pow2(32) == 0x1_0000_0000
    ensures Pow2(63) == 0x8000_0000_0000_0000
    ensures Pow2(64) == 0x1_0000_0000_0000_0000
  {
    assert Pow2(8) == 0x100;
    assert Pow2(14) == 0x4000;
    assert Pow2(16) == 0x1_0000;
    Pow2Add(16, 16);
    Pow2Add(32, 32);
    assert Pow2(32) == 2 * Pow2(31);
    assert Pow2(64) == 2 * Pow2(63);
  }

  /** Uniqueness of quotient and remainder. */
  lemma DivModUnique(x: int, d: int, q: int, r: int)
    requires d > 0
    requires x == q * d + r
    requires 0 <= r < d
    ensures x / d == q
    ensures x % d == r
  {
    var q', r' := x / d, x % d;
    assert x == q' * d + r';
    assert (q - q') * d == r' - r;
    if q > q' {
      MulAtLeast(q - q', d);
      assert false;
    } else if q < q' {
      assert (q' - q) * d == r - r';
      MulAtLeast(q' - q, d);
      assert false;
    }
  }

  lemma MulAtLeast(k: int, d: int)
    requires k >= 1 && d > 0
    ensures k * d >= d
  {
    assert k * d - d == (k - 1) * d;
  }

  lemma MulMonotone(a: int, b: int, c: int)
    requires a <= b && 0 <= c
    ensures a * c <= b * c
  {
    assert (b - a) * c >= 0;
    assert (b - a) * c == b * c - a * c;
  }

  lemma MulBelow(x: int, t: int, e: int, m: int)
    requires 0 <= x < t && 0 <= e <= m && 0 < m
    ensures 0 <= x * e < t * m
  {
    MulMonotone(x + 1, t, m);
    MulMonotone(e, m, x);
    assert (x + 1) * m == x * m + m;
    assert e * x == x * e && m * x == x * m;
    assert 0 <= x * e;
  }

  lemma CancelLess(a: int, b: int, f: int)
    requires 0 < f && a * f < b * f
    ensures a < b
  {
    if a >= b {
      MulMonotone(b, a, f);
      assert false;
    }
  }

  /** A quotient lies between two numbers when the dividend lies between their
      products with the divisor. */
  lemma DivBetween(x: int, d: int, lo: int, hi: int)
    requires d > 0
    requires lo * d <= x < hi * d
    ensures lo <= x / d < hi
  {
    var q, r := x / d, x % d;
    assert x == q * d + r;
    if q < lo {
      MulMonotone(q + 1, lo, d);
      assert false;
    }
    if q >= hi {
      MulMonotone(hi, q, d);
      assert false;
    }
  }

  lemma QuotientIsNat(a: nat, p: nat)
    requires p > 0
    ensures 0 <= a / p <= a && 0 <= a % p <= a
  {
    assert a == a / p * p + a % p;
    if a / p > 0 {
      MulMonotone(1, p, a / p);
    }
  }

  /** Dividing twice is dividing once by the product. */
  lemma DivDiv(x: nat, a: nat, b: nat)
    requires a > 0 && b > 0
    ensures a * b > 0
    ensures (x / a) / b == x / (a * b)
  {
    MulAtLeast(a, b);
    var q, r := (x / a) / b, (x / a) % b;
    assert x / a == q * b + r;
    assert x == (q * b + r) * a + x % a;
    assert (q * b + r) * a == q * (a * b) + r * a;
    MulMonotone(r, b - 1, a);
    assert (b - 1) * a == a * b - a;
    assert r * a >= 0;
    DivModUnique(x, a * b, q, r * a + x % a);
  }

  /** A quotient can be read off after scaling dividend and divisor by `f`. */
  lemma ScaledQuotient(a: int, f: int, n: int, q: int, s: int)
    requires f > 0 && n > 0
    requires a * f == (q * n) * f + s
    requires 0 <= s < n * f
    ensures a / n == q
  {
    assert (q * n - 1) * f == (q * n) * f - f;
    CancelLess(q * n - 1, a, f);
    assert (q * n + n) * f == (q * n) * f + n * f;
    CancelLess(a, q * n + n, f);
    DivModUnique(a, n, q, a - q * n);
  }

  // ------------------------------------------------------------------------- sums

  function Sum(a: seq<nat>): nat {
    if a == [] then 0 else Sum(a[..|a| - 1]) + a[|a| - 1]
  }

  lemma {:induction false} SumMonotone(a: seq<nat>, i: nat, j: nat)
    requires i <= j <= |a|
    ensures Sum(a[..i]) <= Sum(a[..j])
    decreases j
  {
    if i == j {
    } else {
      assert a[..j][..j - 1] == a[..j - 1];
      SumMonotone(a, i, j - 1);
    }
  }

  /** Every element lies within the sum, behind those before it. */
  lemma SumAt(a: seq<nat>, i: nat)
    requires i < |a|
    ensures Sum(a[..i]) + a[i] == Sum(a[..i + 1]) <= Sum(a)
  {
    assert a[..i + 1][..i] == a[..i];
    SumMonotone(a, i + 1, |a|);
    assert a[..|a|] == a;
  }
}
