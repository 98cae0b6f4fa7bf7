/** Division with remainder by a variable, as used for rotations, pages and sectors. */
module Arith {
  /** Quotient and remainder are determined by the decomposition. */
  lemma {:induction false} DivModUnique(x: int, n: int, q: int, r: int)
    requires n > 0 && 0 <= r < n && x == n * q + r
    ensures x / n == q && x % n == r
  {
    var d := x / n - q;
    assert n * (x / n) + x % n == x;
    assert n * d == n * (x / n) - n * q;
    if d >= 1 {
      MulAtLeast(n, d);
    } else if d <= -1 {
      MulAtLeast(n, -d);
    }
  }

  lemma {:induction false} MulAtLeast(n: int, d: int)
    requires n > 0 && d >= 1
    ensures n * d >= n
  {
  }

  lemma {:induction false} ModAddsPeriod(a: int, n: int)
    requires n > 0
    ensures (n + a) % n == a % n
  {
    assert n + a == n * (a / n + 1) + a % n;
    DivModUnique(n + a, n, a / n + 1, a % n);
  }

  lemma {:induction false} SmallMod(a: int, n: int)
    requires 0 <= a < n
    ensures a % n == a && a / n == 0
  {
    DivModUnique(a, n, 0, a);
  }
}
