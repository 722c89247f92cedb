/** Facts about floor division by a positive divisor that the rest of the model leans on. */
module Arith {

  /** The quotient brackets the dividend. */
  lemma {:induction false} FloorBracket(n: int, m: int)
    requires m > 0
    ensures (n / m) * m <= n < (n / m + 1) * m
  {
    assert n == (n / m) * m + n % m;
  }

  /** `q * m <= n` makes q a lower bound of `n / m`. */
  lemma {:induction false} FloorLower(n: int, m: int, q: int)
    requires m > 0 && q * m <= n
    ensures q <= n / m
  {
    FloorBracket(n, m);
    MulCancelLt(q, n / m + 1, m);
  }

  /** `n <= q * m` makes q an upper bound of `n / m`. */
  lemma {:induction false} FloorUpper(n: int, m: int, q: int)
    requires m > 0 && n <= q * m
    ensures n / m <= q
  {
    FloorBracket(n, m);
    MulCancelLe(n / m, q, m);
  }

  /** `n < q * m` makes `n / m` smaller than q. */
  lemma {:induction false} FloorBelow(n: int, m: int, q: int)
    requires m > 0 && n < q * m
    ensures n / m < q
  {
    FloorBracket(n, m);
    MulCancelLt(n / m, q, m);
  }

  lemma {:induction false} MulCancelLt(a: int, b: int, m: int)
    requires m > 0 && a * m < b * m
    ensures a < b
  {
    assert b * m - a * m == (b - a) * m;
  }

  lemma {:induction false} MulCancelLe(a: int, b: int, m: int)
    requires m > 0 && a * m <= b * m
    ensures a <= b
  {
    assert b * m - a * m == (b - a) * m;
  }

  lemma {:induction false} FloorExact(q: int, m: int)
    requires m > 0
    ensures q * m / m == q
  {
    FloorLower(q * m, m, q);
    FloorUpper(q * m, m, q);
  }

  /** `n / m` is the one q with `q * m <= n < (q + 1) * m`. */
  lemma {:induction false} FloorUnique(n: int, m: int, q: int)
    requires m > 0 && q * m <= n < (q + 1) * m
    ensures n / m == q
  {
    FloorLower(n, m, q);
    FloorBracket(n, m);
    MulCancelLt(n / m, q + 1, m);
  }

  /** Floor division is monotonic in the dividend. */
  lemma {:induction false} FloorMonotonic(a: int, b: int, m: int)
    requires m > 0 && a <= b
    ensures a / m <= b / m
  {
    FloorBracket(a, m);
    FloorLower(b, m, a / m);
  }

  /** Multiplying by a non-negative factor keeps the order. */
  lemma {:induction false} MulMonotonic(a: int, b: int, m: nat)
    requires a <= b
    ensures a * m <= b * m
  {
    assert b * m - a * m == (b - a) * m;
  }
}
