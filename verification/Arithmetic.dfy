/**
 * Machine widths, and the steps of non-linear arithmetic that the address,
 * sizing and counting proofs are made of.
 */
module Arithmetic {

  const U32 := 0x1_0000_0000
  const U64 := 0x1_0000_0000_0000_0000

  type byte = x: nat | x < 256

  function Min(a: nat, b: nat): (r: nat)
    ensures r <= a && r <= b && (r == a || r == b)
  {
    if a < b then a else b
  }

  // ----- products -----

  lemma MulOneMore(n: int, k: int)
    ensures (n + 1) * k == n * k + k
  {
  }

  lemma MulAdd(a: int, b: int, k: int)
    ensures (a + b) * k == a * k + b * k
  {
  }

  lemma MulCommutes(a: int, b: int)
    ensures a * b == b * a
  {
  }

  lemma MulAssociates(a: int, b: int, c: int)
    ensures a * b * c == a * (b * c)
  {
  }

  lemma {:induction false} MulNonNegative(a: nat, k: nat)
    ensures a * k >= 0
  {
    if a > 0 {
      MulNonNegative(a - 1, k);
      MulOneMore(a - 1, k);
    }
  }

  lemma MulMonotone(a: int, b: int, k: nat)
    requires a <= b
    ensures a * k <= b * k
  {
    var d: nat := b - a;
    MulNonNegative(d, k);
    MulAdd(a, d, k);
  }

  /** The first a blocks end where block b starts, or before. */
  lemma BlockBefore(a: int, b: int, k: nat)
    requires a < b
    ensures a * k + k <= b * k
  {
    MulMonotone(a + 1, b, k);
    MulOneMore(a, k);
  }

  /** A smaller product has the smaller factor. */
  lemma MulCancels(a: int, b: int, k: nat)
    requires a * k < b * k
    ensures a < b
  {
    if a >= b {
      MulMonotone(b, a, k);
    }
  }

  /** A factor is at most the product. */
  lemma FactorBound(a: nat, b: nat)
    requires b > 0
    ensures a <= a * b
  {
    MulMonotone(1, b, a);
    MulCommutes(a, b);
  }

  // ----- quotients and remainders -----

  lemma Quotient(n: nat, d: nat)
    requires d > 0
    ensures n == n / d * d + n % d && 0 <= n % d < d
  {
  }

  lemma SmallMod(x: nat, m: nat)
    requires x < m
    ensures x % m == x
  {
  }

  /** Quotient and remainder are the only pair that fits. */
  lemma DivModUnique(x: nat, d: nat, q: nat, r: nat)
    requires r < d && x == q * d + r
    ensures x / d == q && x % d == r
  {
    var q', r' := x / d, x % d;
    Quotient(x, d);
    if q' < q {
      BlockBefore(q', q, d);
    } else if q < q' {
      BlockBefore(q, q', d);
    }
  }

  lemma DivBounds(n: nat, d: nat)
    requires d > 0
    ensures n / d * d <= n < n / d * d + d
  {
    Quotient(n, d);
  }

  lemma QuotientBelow(n: nat, d: nat, k: nat)
    requires d > 0 && n < k * d
    ensures n / d < k
  {
    DivBounds(n, d);
    MulCancels(n / d, k, d);
  }

  lemma QuotientAtLeast(n: nat, d: nat, k: nat)
    requires d > 0 && k * d <= n
    ensures k <= n / d
  {
    DivBounds(n, d);
    MulOneMore(n / d, d);
    MulCancels(k, n / d + 1, d);
  }

  /** Rounding up: the least multiple of d that reaches n. */
  lemma CeilBounds(n: nat, d: nat)
    requires d > 0
    ensures n <= (n + d - 1) / d * d < n + d
  {
    DivBounds(n + d - 1, d);
  }

  lemma MultipleMod(k: nat, d: nat)
    requires d > 0
    ensures k * d % d == 0 && k * d / d == k
  {
    DivModUnique(k * d, d, k, 0);
  }

  /** Counting on by one moves the remainder on, or back to zero with the next quotient. */
  lemma ModStep(n: nat, k: nat)
    requires k >= 1
    ensures (n + 1) % k == if n % k == k - 1 then 0 else n % k + 1
    ensures (n + 1) / k == if n % k == k - 1 then n / k + 1 else n / k
  {
    var q, r := n / k, n % k;
    Quotient(n, k);
    if r == k - 1 {
      MulOneMore(q, k);
      DivModUnique(n + 1, k, q + 1, 0);
    } else {
      DivModUnique(n + 1, k, q, r + 1);
    }
  }

  /** Quotient and remainder of a sum, from those of its parts. */
  lemma DivModAdd(d: nat, r: nat, e: nat, f: nat, k: nat)
    requires r < k && f < k
    ensures (d * k + r + (e * k + f)) / k == if r + f < k then d + e else d + e + 1
  {
    var x := d * k + r + (e * k + f);
    MulAdd(d, e, k);
    if r + f < k {
      DivModUnique(x, k, d + e, r + f);
    } else {
      MulOneMore(d + e, k);
      DivModUnique(x, k, d + e + 1, r + f - k);
    }
  }

  /** The quotient of a sum is the sum of the quotients, or one more when the second part does not divide. */
  lemma DivAdd(x: nat, c: nat, k: nat)
    requires k > 0
    ensures x / k + c / k <= (x + c) / k <= x / k + c / k + (if c % k == 0 then 0 else 1)
  {
    Quotient(x, k);
    Quotient(c, k);
    DivModAdd(x / k, x % k, c / k, c % k, k);
  }
}
