/** Powers of two, and facts about quotients and remainders. */
module Arithmetic {
  lemma DivUnique(x: int, d: int, q: int, r: int)
    requires 0 < d && 0 <= r < d && x == q * d + r
    ensures x / d == q && x % d == r
  {
    var q', r' := x / d, x % d;
    assert x == q' * d + r';
    assert (q - q') * d == r' - r by {
      assert (q - q') * d == q * d - q' * d;
    }
    MulAtLeast(q - q', d);
    MulAtLeast(q' - q, d);
  }

  lemma MulAtLeast(k: int, d: int)
    requires 0 < d
    ensures 1 <= k ==> d <= k * d
    ensures 0 <= k ==> 0 <= k * d
    ensures -(k * d) == (-k) * d
  {
    if 1 <= k {
      assert k * d == (k - 1) * d + d;
      assert 0 <= (k - 1) * d;
    }
  }

  /** Numbers that differ by a multiple have the same remainder. */
  lemma SameResidue(a: int, b: int, m: int, k: int)
    requires m > 0 && a == b + k * m
    ensures a % m == b % m
  {
    var q := b / m;
    assert a == (q + k) * m + b % m by {
      assert (q + k) * m == q * m + k * m;
    }
    DivUnique(a, m, q + k, b % m);
  }

  function Pow2(k: nat): (p: int)
    ensures p >= 1
  {
    if k == 0 then 1 else 2 * Pow2(k - 1)
  }

  lemma {:induction false} Pow2Sum(a: nat, b: nat)
    ensures Pow2(a + b) == Pow2(a) * Pow2(b)
  {
    if a > 0 {
      Pow2Sum(a - 1, b);
      assert 2 * (Pow2(a - 1) * Pow2(b)) == 2 * Pow2(a - 1) * Pow2(b);
    }
  }

  lemma {:induction false} Pow2Injective(a: nat, b: nat)
    requires Pow2(a) == Pow2(b)
    ensures a == b
  {
    if a > 0 && b > 0 {
      Pow2Injective(a - 1, b - 1);
    }
  }
}
