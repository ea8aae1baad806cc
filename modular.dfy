/** Facts about Dafny's Euclidean `/` and `%` by a positive divisor. */
module Modular {

  lemma MulGe(d: int, n: int)
    requires n > 0
    ensures d >= 1 ==> d * n >= n
    ensures d <= -1 ==> d * n <= -n
  {
    if d >= 1 {
      assert d * n == (d - 1) * n + n;
    } else if d <= -1 {
      assert d * n == (d + 1) * n - n;
    }
  }

  /** The remainder is the only `r` in [0, n) with `a == q * n + r`. */
  lemma ModUnique(a: int, n: int, q: int, r: int)
    requires n > 0 && 0 <= r < n && a == q * n + r
    ensures a % n == r
  {
    var q', r' := a / n, a % n;
    assert a == q' * n + r';
    assert (q - q') * n == r' - r;
    MulGe(q - q', n);
  }

  lemma ModAddMultiple(q: int, x: int, n: int)
    requires n > 0
    ensures (q * n + x) % n == x % n
  {
    assert x == (x / n) * n + x % n;
    assert q * n + x == (q + x / n) * n + x % n;
    ModUnique(q * n + x, n, q + x / n, x % n);
  }

  lemma ModShift(a: int, b: int, n: int)
    requires n > 0
    ensures (a % n + b) % n == (a + b) % n
  {
    var q := a / n;
    assert a == q * n + a % n;
    ModAddMultiple(q, a % n + b, n);
  }

  lemma SmallMod(x: int, n: int)
    requires n > 0 && 0 <= x < 2 * n
    ensures x % n == if x < n then x else x - n
  {
    if x < n {
      ModUnique(x, n, 0, x);
    } else {
      ModUnique(x, n, 1, x - n);
    }
  }
}
