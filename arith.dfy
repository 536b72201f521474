/** Facts about Euclidean division by a positive divisor that the solver does not find alone. */
module Arith {

  lemma {:induction false} MulAtLeast(d: nat, p: int)
    requires d >= 1 && p >= 1
    ensures d * p >= p
  {
    if d > 1 {
      MulAtLeast(d - 1, p);
      assert d * p == (d - 1) * p + p;
    }
  }

  lemma MulMonotone(a: int, b: int, p: int)
    requires 0 <= a <= b && p >= 1
    ensures a * p <= b * p
  {
    if a < b {
      MulAtLeast(b - a, p);
      assert b * p - a * p == (b - a) * p;
    }
  }

  lemma MulMonotoneLeft(w: nat, a: int, b: int)
    requires 0 <= a <= b
    ensures w * a <= w * b
  {
    if w > 0 {
      MulMonotone(a, b, w);
    }
  }

  /** Dividing a non-negative number leaves a non-negative quotient whose multiple does not exceed it. */
  lemma DivNonNegative(a: int, p: int)
    requires a >= 0 && p >= 1
    ensures 0 <= a / p && (a / p) * p <= a
  {
    assert a == (a / p) * p + a % p;
  }

  /** The only multiple of `p` strictly between -p and p is 0. */
  lemma SmallMultipleIsZero(d: int, p: int)
    requires p >= 1 && -p < d * p < p
    ensures d == 0
  {
    if d >= 1 {
      MulAtLeast(d, p);
    }
  }

  /** Quotient and remainder are determined by `a == q * p + m` with `0 <= m < p`. */
  lemma DivModUnique(a: int, p: int, q: int, m: int)
    requires p >= 1 && 0 <= m < p && a == q * p + m
    ensures a / p == q && a % p == m
  {
    var q', m' := a / p, a % p;
    assert a == q' * p + m';
    assert (q - q') * p == q * p - q' * p;
    SmallMultipleIsZero(q - q', p);
  }

  /** Index `r * p + i` of a grid with `p` columns lies in row `r`, column `i`. */
  lemma RowColumn(r: int, i: int, p: int)
    requires p >= 1 && 0 <= i < p
    ensures (r * p + i) / p == r && (r * p + i) % p == i
  {
    DivModUnique(r * p + i, p, r, i);
  }

  /** An index below `n * p` lies in one of the first `n` rows. */
  lemma DivBound(k: nat, p: int, n: nat)
    requires p >= 1 && k < n * p
    ensures k / p < n
  {
  }

  /** Two numbers with the same remainder that lie in a window narrower than `p` are equal. */
  lemma SameResidueInWindow(a: int, b: int, p: int)
    requires p >= 1 && (a - b) % p == 0 && -p < a - b < p
    ensures a == b
  {
    var d := (a - b) / p;
    assert a - b == d * p + (a - b) % p;
    SmallMultipleIsZero(d, p);
  }
}
