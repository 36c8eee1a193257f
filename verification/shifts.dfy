/** Left and right shifts of page and block numbers, kept free of multiplication. */
module Shifts {

  /** x >> k */
  function Shr(x: nat, k: nat): nat
  {
    if k == 0 then x else Shr(x / 2, k - 1)
  }

  /** x << k */
  function Shl(x: nat, k: nat): nat
    decreases k
  {
    if k == 0 then x else Shl(2 * x, k - 1)
  }

  /** BIT(k) as a number. */
  function Pow2(k: nat): (r: nat)
    ensures r >= 1
  {
    if k == 0 then 1 else 2 * Pow2(k - 1)
  }

  lemma {:induction false} ShrStep(x: nat, k: nat)
    ensures Shr(x, k + 1) == Shr(x, k) / 2
  {
    if k != 0 {
      ShrStep(x / 2, k - 1);
    }
  }

  lemma {:induction false} ShrAdd(x: nat, a: nat, b: nat)
    ensures Shr(x, a + b) == Shr(Shr(x, a), b)
  {
    if a != 0 {
      ShrAdd(x / 2, a - 1, b);
    }
  }

  lemma {:induction false} ShrMono(x: nat, y: nat, k: nat)
    requires x <= y
    ensures Shr(x, k) <= Shr(y, k)
  {
    if k != 0 {
      ShrMono(x / 2, y / 2, k - 1);
    }
  }

  lemma {:induction false} ShlPow(x: nat, k: nat)
    ensures Shl(x, k) == x * Pow2(k)
    decreases k
  {
    if k != 0 {
      ShlPow(2 * x, k - 1);
    }
  }

  lemma {:induction false} ShlMono(x: nat, y: nat, k: nat)
    requires x <= y
    ensures Shl(x, k) <= Shl(y, k)
    decreases k
  {
    if k != 0 {
      ShlMono(2 * x, 2 * y, k - 1);
    }
  }

  /** The numbers that shift down to n are exactly the aligned interval of n. */
  lemma {:induction false} ShrInterval(p: nat, k: nat, n: nat)
    ensures Shr(p, k) == n <==> Shl(n, k) <= p < Shl(n + 1, k)
  {
    if k != 0 {
      ShrInterval(p / 2, k - 1, n);
      ShlDouble(n, k - 1);
      ShlDouble(n + 1, k - 1);
    }
  }

  lemma {:induction false} ShlDouble(x: nat, k: nat)
    ensures Shl(x, k + 1) == 2 * Shl(x, k)
    decreases k
  {
    if k != 0 {
      ShlDouble(2 * x, k - 1);
    }
  }

  lemma {:induction false} ShlLess(n: nat, k: nat)
    ensures Shl(n, k) < Shl(n + 1, k)
    ensures Shl(n + 1, k) == Shl(n, k) + Pow2(k)
  {
    ShlPow(n, k);
    ShlPow(n + 1, k);
  }

  lemma ShrShl(n: nat, k: nat)
    ensures Shr(Shl(n, k), k) == n
  {
    ShlLess(n, k);
    ShrInterval(Shl(n, k), k, n);
  }

  /** x >> k is division by 2^k. */
  lemma ShrDiv(x: nat, k: nat)
    ensures Shr(x, k) == x / Pow2(k)
  {
    var q := Shr(x, k);
    ShrInterval(x, k, q);
    ShlPow(q, k);
    ShlLess(q, k);
    DivUnique(x, Pow2(k), q);
  }

  lemma DivUnique(x: nat, d: nat, q: nat)
    requires d > 0 && q * d <= x < q * d + d
    ensures x / d == q
  {
    var r := x / d;
    assert x == r * d + x % d;
    assert r < q ==> (r + 1) * d <= q * d;
    assert r > q ==> (q + 1) * d <= r * d;
  }

  lemma {:induction false} Pow2Mono(a: nat, b: nat)
    requires a <= b
    ensures Pow2(a) <= Pow2(b)
    decreases b
  {
    if a < b {
      Pow2Mono(a, b - 1);
    }
  }
}
