/** Facts about `%` on naturals that the ring-buffer indices rely on. */
module ModArith {

  lemma MulAtLeast(d: int, n: nat)
    requires d >= 1 && n > 0
    ensures d * n >= n
  {
  }

  /** `%` is determined by any quotient/remainder decomposition. */
  lemma ModUnique(x: nat, q: int, r: int, n: nat)
    requires n > 0 && 0 <= r < n && x == q * n + r
    ensures x % n == r
  {
    var q0, r0 := x / n, x % n;
    assert x == q0 * n + r0;
    var d := q - q0;
    assert d * n == r0 - r by { assert q * n - q0 * n == (q - q0) * n; }
    if d >= 1 { MulAtLeast(d, n); }
    else if d <= -1 { MulAtLeast(-d, n); }
  }

  /** Reducing the left operand first does not change a sum's residue. */
  lemma ModPlus(a: nat, b: nat, n: nat)
    requires n > 0
    ensures (a % n + b) % n == (a + b) % n
  {
    var m := a % n + b;
    ModUnique(a + b, a / n + m / n, m % n, n);
    assert (a / n + m / n) * n == (a / n) * n + (m / n) * n;
  }

  /** Fewer than `n` consecutive steps from `a` visit pairwise distinct residues. */
  lemma ModDistinct(a: nat, k: nat, c: nat, n: nat)
    requires k < c < n
    ensures (a + k) % n != (a + c) % n
  {
    ModPlus(a, k, n);
    ModPlus(a, c, n);
    var m := a % n;
    if m + k < n { ModUnique(m + k, 0, m + k, n); } else { ModUnique(m + k, 1, m + k - n, n); }
    if m + c < n { ModUnique(m + c, 0, m + c, n); } else { ModUnique(m + c, 1, m + c - n, n); }
  }
}
