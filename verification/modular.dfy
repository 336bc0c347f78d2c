/** Facts about Euclidean `%` with a positive modulus, which agrees with
    Python's `%` there: the table index normalisation of `multiply`,
    `divide` and `inverse`.
 */
module Modular {

  lemma {:induction false} MulAtLeast(d: nat, n: nat)
    requires d >= 1
    ensures d * n >= n
  {
    if d > 1 {
      MulAtLeast(d - 1, n);
      assert d * n == (d - 1) * n + n;
    }
  }

  /** The remainder is the unique r in [0, n) with a == q * n + r. */
  lemma ModUnique(a: int, n: int, q: int, r: int)
    requires n > 0 && 0 <= r < n && a == q * n + r
    ensures a % n == r
  {
    var q0, r0 := a / n, a % n;
    var d := q - q0;
    assert d * n == r0 - r by {
      assert a == q0 * n + r0;
      assert d * n == q * n - q0 * n;
    }
    if d > 0 {
      MulAtLeast(d, n);
    } else if d < 0 {
      MulAtLeast(-d, n);
    } else {
      assert d * n == 0;
    }
  }

  lemma ModAddPeriod(a: int, n: int)
    requires n > 0
    ensures (a + n) % n == a % n
  {
    ModUnique(a + n, n, a / n + 1, a % n);
  }

  /** Reducing one summand first does not change the sum's remainder. */
  lemma ModCongruent(x: int, y: int, n: int)
    requires n > 0
    ensures ((x % n) + y) % n == (x + y) % n
  {
    var s := (x % n) + y;
    ModUnique(x + y, n, x / n + s / n, s % n);
  }

  /** Numbers in [0, n) are their own remainders. */
  lemma ModSmall(a: int, n: int)
    requires 0 <= a < n
    ensures a % n == a
  {
    ModUnique(a, n, 0, a);
  }

  /** Subtracting j and adding it back, modulo n, returns any i in [0, n). */
  lemma ModDiffAdd(i: int, j: int, n: int)
    requires n > 0 && 0 <= i < n
    ensures ((i - j) % n + j) % n == i
  {
    ModCongruent(i - j, j, n);
    ModSmall(i, n);
  }

  /** Adding i to the remainder of -i gives a multiple of n. */
  lemma ModNegAdd(i: int, n: int)
    requires n > 0
    ensures (i + (-i) % n) % n == 0
  {
    ModCongruent(-i, i, n);
    ModSmall(0, n);
    assert (-i) % n + i == i + (-i) % n;
  }
}
