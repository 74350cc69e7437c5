/** Facts about products of natural numbers used for block layouts. */
module Arithmetic {

  /** t ≥ 1 copies of n are at least n. */
  lemma MulAtLeast(t: int, n: nat)
    requires t >= 1
    ensures t * n >= n
  {
  }

  /** q·n is divisible by n, with quotient q. */
  lemma MultipleOf(q: nat, n: nat)
    requires n >= 1
    ensures (q * n) % n == 0 && (q * n) / n == q
  {
    var x := q * n;
    var d, m := x / n, x % n;
    assert x == d * n + m && 0 <= m < n;
    var t := q - d;
    assert t * n == m;
    if t >= 1 {
      MulAtLeast(t, n);
    } else if t <= -1 {
      MulAtLeast(-t, n);
    }
  }

  /** A product of naturals is a natural. */
  lemma MulNonNegative(a: nat, b: nat)
    ensures 0 <= a * b
  {
  }

  /** Multiplication distributes over a sum of two naturals. */
  lemma Distribute(a: nat, b: nat, ns: nat)
    ensures (a + b) * ns == a * ns + b * ns
  {
  }

  /** Block i of k blocks of ns elements ends at or before k·ns. */
  lemma BlockBound(i: nat, k: nat, ns: nat)
    requires i < k
    ensures i * ns + ns == (i + 1) * ns <= k * ns
    ensures k * ns - (i + 1) * ns == (k - i - 1) * ns
  {
    Distribute(i, 1, ns);
    Distribute(i + 1, k - i - 1, ns);
  }
}
