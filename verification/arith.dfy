/**
 * Small facts of integer arithmetic that the layout proofs lean on. Each is
 * stated as an implication so that a proof can call it unconditionally.
 */
module Arith {

  lemma MulLeft(m: int, a: int, b: int)
    ensures m >= 0 && a <= b ==> m * a <= m * b
  {
    assert m * b - m * a == m * (b - a);
  }

  lemma MulStrict(m: int, a: int, b: int)
    ensures m > 0 && a < b ==> m * a < m * b
  {
    assert m * b - m * a == m * (b - a);
  }

  /** A positive multiple of a nonzero number is nonzero. */
  lemma NonzeroMultiple(m: int, a: int)
    requires m > 0 && a != 0
    ensures m * a != 0
  {
    MulStrict(m, a, 0);
    MulStrict(m, 0, a);
  }

  lemma MulSucc(a: int, b: int)
    ensures (a + 1) * b == a * b + b
  {
  }

  lemma SquareSucc(a: int)
    ensures (a + 1) * (a + 1) == a * a + 2 * a + 1
  {
  }

  /** -m*h + k*m == m*(k - h): the k-th value of a range that starts at -m*h. */
  lemma ShiftedMultiple(m: int, h: int, k: int)
    ensures -m * h + k * m == m * (k - h)
  {
  }

  lemma SquareMonotone(a: int, b: int)
    ensures 0 <= a <= b ==> a * a <= b * b
  {
    MulLeft(a, a, b);
    MulLeft(b, a, b);
    assert a * b == b * a;
  }

  /** k / m indexes a block of m when k indexes n such blocks. */
  lemma DivBound(k: int, m: int, n: int)
    requires 0 < m && 0 <= k < n * m
    ensures 0 <= k / m < n
  {
    var q, s := k / m, k % m;
    assert k == m * q + s;
    MulLeft(m, n, q);
    MulLeft(m, q, -1);
    assert n * m == m * n;
  }

  /** Offset j of block i lies among n blocks of m. */
  lemma BlockIndex(i: int, j: int, m: int, n: int)
    requires 0 <= i < n && 0 <= j < m
    ensures 0 <= i * m + j < n * m
  {
    MulLeft(m, i + 1, n);
    MulLeft(m, 0, i);
    assert m * (i + 1) == i * m + m;
    assert m * n == n * m;
  }

  /** An index below n * m splits into a block number below n and an offset below m. */
  lemma Split(k: int, m: int, n: int) returns (i: int, j: int)
    requires 0 < m && 0 <= k < n * m
    ensures 0 <= i < n && 0 <= j < m && k == i * m + j
  {
    DivBound(k, m, n);
    i, j := k / m, k % m;
    assert k == m * i + j;
  }

  /** Two distinct multiples of a positive m are at least m apart. */
  lemma MultiplesApart(m: int, a: int, b: int)
    requires m > 0 && a != b
    ensures m * a - m * b >= m || m * b - m * a >= m
  {
    MulLeft(m, a + 1, b);
    MulLeft(m, b + 1, a);
    assert m * (a + 1) == m * a + m;
    assert m * (b + 1) == m * b + m;
  }
}
