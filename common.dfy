/**
 * What the partitioning code of the MPI programs shares: a half-open index
 * range, the group assumptions, and the facts about integer multiplication
 * and Euclidean division that the partition proofs use.
 */
module Common {

  /** A half-open range [start, end) of row or element indices. */
  datatype Interval = Interval(start: int, end: int)
  {
    function Length(): int { end - start }
    predicate Contains(x: int) { start <= x < end }
  }

  /** What the source assumes of the group: a non-negative dimension and at least one rank. */
  predicate ValidGroup(n: int, size: int) { n >= 0 && size >= 1 }

  /** a <= b implies a * c <= b * c for non-negative c. */
  lemma MulLe(a: int, b: int, c: int)
    requires a <= b && 0 <= c
    ensures a * c <= b * c
  {
    assert b * c == a * c + (b - a) * c;
  }

  /** Multiplication distributes over addition. */
  lemma MulAddDistrib(a: int, b: int, c: int)
    ensures a * c + b * c == (a + b) * c
  {
  }

  /** Euclidean division of n by size: n == size * q + rem with 0 <= rem < size. */
  lemma DivMod(n: int, size: int)
    requires ValidGroup(n, size)
    ensures n == size * (n / size) + n % size && 0 <= n % size < size && 0 <= n / size
  {
  }
}
