/** Facts about multiplication and integer division needed for the progress
    percentage. */
module DivArith {

  /** A positive factor can be cancelled from `<=`. */
  lemma MulCancel(n: int, x: int, y: int)
    requires n > 0 && n * x <= n * y
    ensures x <= y
  {
  }

  /** A positive factor can be cancelled from `<`. */
  lemma MulCancelStrict(n: int, x: int, y: int)
    requires n > 0 && n * x < n * y
    ensures x < y
  {
  }

  /** `a <= n * c` implies `a / n <= c`. */
  lemma DivBounded(a: nat, n: nat, c: nat)
    requires 0 < n && a <= n * c
    ensures a / n <= c
  {
    assert n * (a / n) <= a;
    MulCancel(n, a / n, c);
  }

  /** `n * c <= a` implies `c <= a / n`. */
  lemma DivLower(a: nat, n: nat, c: nat)
    requires 0 < n && n * c <= a
    ensures c <= a / n
  {
    assert a == n * (a / n) + a % n;
    assert n * (a / n + 1) == n * (a / n) + n;
    MulCancelStrict(n, c, a / n + 1);
  }

  /** `(n * c) / n == c`. */
  lemma DivExact(n: nat, c: nat)
    requires 0 < n
    ensures n * c / n == c
  {
    DivBounded(n * c, n, c);
    DivLower(n * c, n, c);
  }

  /** Integer division is monotone in the dividend. */
  lemma DivMonotone(a: nat, b: nat, n: nat)
    requires 0 < n && a <= b
    ensures a / n <= b / n
  {
    assert n * (a / n) <= a;
    DivLower(b, n, a / n);
  }
}
