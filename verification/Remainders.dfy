/** Facts about division with remainder by a number that is not fixed. */
module Remainders {

  lemma Division(n: int, r: int)
    requires r > 0
    ensures n == (n / r) * r + n % r && 0 <= n % r < r
  {
  }

  lemma NonNegativeProduct(a: int, r: int)
    requires r > 0 && a >= 0
    ensures a * r >= 0
  {
  }

  lemma FarProduct(a: int, r: int)
    requires r > 0 && a != 0
    ensures a * r >= r || a * r <= -r
  {
    if a > 0 {
      NonNegativeProduct(a - 1, r);
    } else {
      NonNegativeProduct(-a - 1, r);
      assert (-a - 1) * r == -(a * r) - r;
    }
  }

  lemma RemainderUnique(n: int, q: int, r: int, e: int)
    requires r > 0 && 0 <= e < r && n == q * r + e
    ensures n % r == e
  {
    Division(n, r);
    assert (q - n / r) * r == q * r - (n / r) * r;
    if q != n / r {
      FarProduct(q - n / r, r);
    }
  }

  /** Taking off one divisor keeps the remainder. */
  lemma RemainderLess(n: int, r: int)
    requires r > 0
    ensures (n - r) % r == n % r
  {
    Division(n, r);
    assert (n / r - 1) * r == (n / r) * r - r;
    RemainderUnique(n - r, n / r - 1, r, n % r);
  }

  lemma SmallRemainder(n: int, r: int)
    requires 0 <= n < r
    ensures n % r == n
  {
    RemainderUnique(n, 0, r, n);
  }

  /** A positive multiple of r is at least r. */
  lemma PositiveMultiple(n: int, r: int)
    requires r > 0 && n > 0 && n % r == 0
    ensures n >= r
  {
    if n < r {
      SmallRemainder(n, r);
    }
  }

  /** How far n is from the next multiple of x. */
  lemma UpToMultiple(n: int, x: int)
    requires x > 0
    ensures (n + (-n) % x) % x == 0
  {
    Division(-n, x);
    assert -((-n) / x) * x == -(((-n) / x) * x);
    RemainderUnique(n + (-n) % x, -((-n) / x), x, 0);
  }

  /** The remainder after adding what still fits. */
  lemma RemainderMore(n: int, k: int, r: int)
    requires r > 0 && 0 <= k && n % r + k <= r
    ensures (n + k) % r == if n % r + k == r then 0 else n % r + k
  {
    Division(n, r);
    if n % r + k == r {
      assert (n / r + 1) * r == (n / r) * r + r;
      RemainderUnique(n + k, n / r + 1, r, 0);
    } else {
      RemainderUnique(n + k, n / r, r, n % r + k);
    }
  }
}
