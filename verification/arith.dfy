/** Facts about Euclidean division that the verifier does not find unaided:
    quotient and remainder are unique, and the remainder steps cyclically. */
module Arith {

  lemma {:induction false} MulAtLeast(d: int, m: int)
    requires d >= 1 && m > 0
    ensures d * m >= m
  {
    if d > 1 {
      MulAtLeast(d - 1, m);
      assert d * m == (d - 1) * m + m;
    }
  }

  /** Any decomposition `x == q * m + r` with `0 <= r < m` is the one `/` and
      `%` compute. */
  lemma DivModUnique(x: int, q: int, r: int, m: int)
    requires m > 0 && 0 <= r < m && x == q * m + r
    ensures x % m == r && x / m == q
  {
    var q', r' := x / m, x % m;
    assert x == q' * m + r';
    if q' > q {
      assert (q' - q) * m == q' * m - q * m;
      MulAtLeast(q' - q, m);
    } else if q' < q {
      assert (q - q') * m == q * m - q' * m;
      MulAtLeast(q - q', m);
    }
  }

  /** Advancing a counter modulo `m` tracks `n % m`. */
  lemma ModSucc(n: nat, m: nat)
    requires m > 0
    ensures (n % m + 1) % m == (n + 1) % m
  {
    var q, r := n / m, n % m;
    assert n == q * m + r;
    if r + 1 < m {
      DivModUnique(n + 1, q, r + 1, m);
      DivModUnique(r + 1, 0, r + 1, m);
    } else {
      assert (q + 1) * m == q * m + m;
      DivModUnique(n + 1, q + 1, 0, m);
      DivModUnique(m, 1, 0, m);
    }
  }

  /** Every `m`-th position from `p < m` has remainder `p`. */
  lemma ModColumn(p: nat, j: nat, m: nat)
    requires p < m
    ensures (p + j * m) % m == p
  {
    DivModUnique(p + j * m, j, p, m);
  }

  /** Multiplying by a positive number keeps the order. */
  lemma MulLe(a: int, b: int, d: int)
    requires a <= b && d > 0
    ensures a * d <= b * d
  {
    if a < b {
      MulAtLeast(b - a, d);
      assert (b - a) * d == b * d - a * d;
    }
  }
}
