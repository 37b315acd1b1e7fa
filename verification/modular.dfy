/**
 Facts about Euclidean remainder that the autoplay cycle needs. The solver
 does not derive them on its own for a symbolic divisor.
 */
module Modular {

  /** A positive multiple of `n` is at least `n`. */
  lemma MulAtLeast(a: int, n: nat)
    requires a >= 1 && n > 0
    ensures a * n >= n
  {
  }

  /** The remainder is determined by any quotient-remainder decomposition. */
  lemma ModUnique(x: nat, q: int, r: int, n: nat)
    requires n > 0 && 0 <= r < n && x == q * n + r
    ensures x % n == r
  {
    var q', r' := x / n, x % n;
    assert x == q' * n + r';
    assert (q - q') * n == r' - r;
    if q > q' {
      MulAtLeast(q - q', n);
    } else if q < q' {
      MulAtLeast(q' - q, n);
    }
  }

  /** Reducing before adding does not change the remainder. */
  lemma ModAddMod(x: nat, j: nat, n: nat)
    requires n > 0
    ensures (x % n + j) % n == (x + j) % n
  {
    var q, r := x / n, x % n;
    var q2, r2 := (r + j) / n, (r + j) % n;
    assert x == q * n + r;
    assert r + j == q2 * n + r2;
    assert x + j == (q + q2) * n + r2;
    ModUnique(x + j, q + q2, r2, n);
  }

  /** Adding the divisor once to a value below it gives the value back. */
  lemma ModAddSelf(i: nat, n: nat)
    requires i < n
    ensures (i + n) % n == i
  {
  }
}
