/** Quotients and remainders by variables. */
module Division {

  lemma MulMono(a: nat, b: nat, f: nat)
    requires a <= b
    ensures a * f <= b * f
  {
  }

  lemma Cancel(a: nat, b: nat, f: nat)
    requires f > 0
    ensures a * f <= b * f ==> a <= b
  {
    if b < a {
      MulMono(b + 1, a, f);
    }
  }

  /** The one way to write x as a multiple of m and a remainder. */
  lemma ModUnique(x: int, q: int, r: nat, m: nat)
    requires r < m && x == q * m + r
    ensures x % m == r && x / m == q
  {
    var k := x / m;
    assert x == k * m + x % m;
    assert k < q ==> (k + 1) * m <= q * m;
    assert q < k ==> (q + 1) * m <= k * m;
  }

  lemma ExactQuotient(q: nat, d: nat)
    requires d > 0
    ensures q * d / d == q && q * d % d == 0
  {
    ModUnique(q * d, q, 0, d);
  }

  /** The difference of two multiples. */
  lemma MultipleDifference(x: nat, y: nat, d: nat)
    requires d > 0 && x <= y && x % d == 0 && y % d == 0
    ensures (y - x) / d * d == y - x
  {
    var k, j := x / d, y / d;
    assert x == k * d && y == j * d;
    Cancel(k, j, d);
    assert (j - k) * d == j * d - k * d;
    ExactQuotient(j - k, d);
  }

  lemma QuotientPositive(n: nat, d: nat)
    requires 0 < d <= n
    ensures n / d >= 1
  {
    assert n == (n / d) * d + n % d;
  }

  lemma SmallMod(x: nat, m: nat)
    requires x < m
    ensures x % m == x
  {
  }

  lemma ModAdd(x: nat, d: nat, m: nat)
    requires d < m
    ensures (x + d) % m == if x % m + d < m then x % m + d else x % m + d - m
  {
    var q, r := x / m, x % m;
    assert x == q * m + r;
    if r + d < m {
      ModUnique(x + d, q, r + d, m);
    } else {
      assert (q + 1) * m == q * m + m;
      ModUnique(x + d, q + 1, r + d - m, m);
    }
  }

  /** A value at most one period outside 0..m - 1 wraps once. */
  lemma WrapOnce(x: int, m: nat)
    requires m > 0 && 0 <= x + m < 3 * m
    ensures x % m == if x < 0 then x + m else if x < m then x else x - m
  {
    if x < 0 {
      assert x == (-1) * m + (x + m);
      ModUnique(x, -1, x + m, m);
    } else if x < m {
      ModUnique(x, 0, x, m);
    } else {
      ModUnique(x, 1, x - m, m);
    }
  }
}
