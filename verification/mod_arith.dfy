/** Facts about Euclidean `/` and `%` with a symbolic positive divisor (the page size). */
module ModArith {

  lemma MulAtLeast(k: int, m: int)
    requires k >= 1 && m > 0
    ensures k * m >= m
  {}

  /** Quotient and remainder are determined by `x == q * m + r` with `0 <= r < m`. */
  lemma DivModUnique(x: int, q: int, r: int, m: int)
    requires m > 0 && 0 <= r < m && x == q * m + r
    ensures x % m == r && x / m == q
  {
    var q0, r0 := x / m, x % m;
    assert x == q0 * m + r0;
    assert (q - q0) * m == r0 - r;
    if q > q0 {
      MulAtLeast(q - q0, m);
    } else if q < q0 {
      MulAtLeast(q0 - q, m);
    }
  }

  lemma ModSmall(x: int, m: int)
    requires 0 <= x < m
    ensures x % m == x && x / m == 0
  {
    DivModUnique(x, 0, x, m);
  }

  /** Moving `k` bytes forward inside one page moves the offset in the page by `k`. */
  lemma ModAddInPage(a: int, k: int, m: int)
    requires m > 0 && k >= 0 && a % m + k < m
    ensures (a + k) % m == a % m + k
  {
    DivModUnique(a + k, a / m, a % m + k, m);
  }

  /** Moving forward by the space left in the page lands on a page start. */
  lemma ModToPageEnd(a: int, m: int)
    requires m > 0
    ensures (a + (m - a % m)) % m == 0
  {
    DivModUnique(a + (m - a % m), a / m + 1, 0, m);
  }

  /** `(m + x) / m == 1 + x / m`, the step of a ceiling division. */
  lemma DivAddOne(x: int, m: int)
    requires m > 0 && x >= 0
    ensures (m + x) / m == 1 + x / m
  {
    DivModUnique(m + x, 1 + x / m, x % m, m);
  }

  /**
   * A run that fits in its page of size `p` also fits in its page of any size `P` that `p`
   * divides: pages of size `P` are unions of whole pages of size `p`.
   */
  lemma InCoarserPage(a: int, len: int, p: int, P: int)
    requires a >= 0 && len >= 0 && p > 0 && P > 0 && P % p == 0 && a % p + len <= p
    ensures a % P + len <= P
  {
    var k := P / p;
    var m := a / P;
    var r := a % P;
    var q := r / p;
    var s := r % p;
    assert P == k * p;
    assert a == m * P + r;
    assert r == q * p + s;
    assert m * P == (m * k) * p by { MulAssoc(m, k, p); }
    assert a == (m * k + q) * p + s by { MulAddDistrib(m * k, q, p); }
    DivModUnique(a, m * k + q, s, p);
    assert q < k by {
      if q >= k {
        MulMono(k, q, p);
      }
    }
    MulMono(q + 1, k, p);
    MulAddDistrib(q, 1, p);
  }

  lemma MulAssoc(x: int, y: int, z: int)
    ensures x * (y * z) == (x * y) * z
  {}

  lemma MulAddDistrib(x: int, y: int, z: int)
    ensures (x + y) * z == x * z + y * z
  {}

  lemma MulMono(x: int, y: int, m: int)
    requires x <= y && m > 0
    ensures x * m <= y * m
  {
    assert y * m - x * m == (y - x) * m;
  }

  lemma ModOfMod(x: int, m: int)
    requires m > 0
    ensures (x % m) % m == x % m
  {
    ModSmall(x % m, m);
  }
}
