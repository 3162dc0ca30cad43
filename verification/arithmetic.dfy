/** Facts about natural-number multiplication and remainder that the frame
    and timer arithmetic rely on. */
module Arithmetic {

  lemma MulAtLeast(d: nat, n: nat)
    requires d >= 1
    ensures d * n >= n
  {
    assert d * n == (d - 1) * n + n;
  }

  lemma MulMonotone(a: nat, b: nat, m: nat)
    requires a <= b
    ensures a * m <= b * m
  {
    assert b * m == a * m + (b - a) * m;
  }

  /** The remainder is determined by any quotient/remainder decomposition. */
  lemma ModUnique(x: int, n: int, q: int, r: int)
    requires n > 0 && 0 <= r < n && x == q * n + r
    ensures x % n == r
  {
    var q0, r0 := x / n, x % n;
    assert x == q0 * n + r0;
    assert q * n - q0 * n == r0 - r;
    if q > q0 {
      assert (q - q0) * n == q * n - q0 * n;
      MulAtLeast(q - q0, n);
    } else if q < q0 {
      assert (q0 - q) * n == q0 * n - q * n;
      MulAtLeast(q0 - q, n);
    }
  }

  /** One step forward on a cycle of length `n`, then `k - 1` more, is `k`
      steps from the start. */
  lemma ModShift(j: nat, k: nat, n: nat)
    requires j < n && k >= 1
    ensures ((j + 1) % n + (k - 1)) % n == (j + k) % n
  {
    if j + 1 == n {
      ModUnique(j + 1, n, 1, 0);
      var q, r := (k - 1) / n, (k - 1) % n;
      assert k - 1 == q * n + r;
      assert j + k == (q + 1) * n + r;
      ModUnique(j + k, n, q + 1, r);
    } else {
      ModUnique(j + 1, n, 0, j + 1);
    }
  }
}
