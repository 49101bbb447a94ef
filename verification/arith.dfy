/** Facts about Euclidean division and products used by the calendar and
    the page arithmetic. */
module Arith {

  lemma MulSucc(k: int, ps: int)
    ensures (k + 1) * ps == k * ps + ps
  {
  }

  /** Moving from `x` to `x + 1` raises the quotient by `k` exactly when
      `x + 1` is a multiple of `k`. */
  lemma QuotientStep(x: int, k: int)
    requires x >= 0 && k > 0
    ensures (x + 1) / k == x / k + (if (x + 1) % k == 0 then 1 else 0)
  {
    var q, r := x / k, x % k;
    assert x == q * k + r && 0 <= r < k;
    if r + 1 < k {
      assert x + 1 == q * k + (r + 1);
      DivUnique(x + 1, k, q, r + 1);
    } else {
      assert x + 1 == (q + 1) * k;
      DivUnique(x + 1, k, q + 1, 0);
    }
  }

  /** A multiple of 400 is one of 100, and a multiple of 100 is one of 4. */
  lemma MultiplesNest(n: int)
    ensures n % 400 == 0 ==> n % 100 == 0
    ensures n % 100 == 0 ==> n % 4 == 0
  {
    if n % 400 == 0 {
      DivUnique(n, 100, 4 * (n / 400), 0);
    }
    if n % 100 == 0 {
      DivUnique(n, 4, 25 * (n / 100), 0);
    }
  }

  /** Euclidean division has one quotient and remainder. */
  lemma DivUnique(n: int, k: int, q: int, r: int)
    requires k > 0 && 0 <= r < k && n == q * k + r
    ensures n / k == q && n % k == r
  {
    var q', r' := n / k, n % k;
    assert n == q' * k + r';
    assert (q - q') * k == r' - r by {
      assert (q - q') * k == q * k - q' * k;
    }
    if q' < q {
      MulAtLeast(q - q', k);
    } else if q' > q {
      MulAtLeast(q' - q, k);
    }
  }

  lemma {:induction false} MulAtLeast(d: int, k: int)
    requires d >= 1 && k > 0
    ensures d * k >= k
    decreases d
  {
    if d > 1 {
      MulAtLeast(d - 1, k);
      assert d * k == (d - 1) * k + k;
    }
  }
}
