/**
 * Row-block partition of an n x n matrix over a group of `size` ranks,
 * as every rank computes it for itself in examples/matrix_multiply_parallel.c
 * (lines 65-71): `n / size` rows each, and one extra row for each of the
 * `n % size` lowest ranks.
 */
module RowPartition {
  import opened Common

  /**
   * `start_row` (line 69): rank * rows_per_process + min(rank, remainder).
   * The formula is also evaluated at rank == size, where it gives n: the
   * row one past the last rank's block.
   */
  function StartRow(n: int, size: int, rank: int): (s: int)
    requires ValidGroup(n, size) && 0 <= rank <= size
    ensures 0 <= s <= n
    ensures rank == size ==> s == n
  {
    var q, rem := n / size, n % size;
    MulLe(rank, size, q);
    rank * q + (if rank < rem then rank else rem)
  }

  /**
   * The rows owned by `rank` (lines 69-70): `end_row` adds rows_per_process
   * rows, plus one when rank < remainder.
   */
  function Partition(n: int, size: int, rank: int): (p: Interval)
    requires ValidGroup(n, size) && 0 <= rank < size
    ensures 0 <= p.start <= p.end <= n
  {
    var q, rem := n / size, n % size;
    var start := StartRow(n, size, rank);
    var end := start + q + (if rank < rem then 1 else 0);
    assert end == StartRow(n, size, rank + 1);
    Interval(start, end)
  }

  /** `local_rows` (line 71): n / size, plus one for the n % size lowest ranks. */
  function LocalRows(n: int, size: int, rank: int): (rows: nat)
    requires ValidGroup(n, size) && 0 <= rank < size
    ensures rows == if rank < n % size then n / size + 1 else n / size
  {
    Partition(n, size, rank).Length()
  }

  /** Consecutive ranks own adjacent blocks; the last block ends at row n. */
  lemma PartitionContiguous(n: int, size: int, rank: int)
    requires ValidGroup(n, size) && 0 <= rank < size
    ensures Partition(n, size, rank).end == StartRow(n, size, rank + 1)
    ensures rank + 1 < size ==> Partition(n, size, rank).end == Partition(n, size, rank + 1).start
  {
    var q := n / size;
    assert (rank + 1) * q == rank * q + q;
  }

  /** The blocks start at row 0 and the last one ends at row n. */
  lemma PartitionEnds(n: int, size: int)
    requires ValidGroup(n, size)
    ensures Partition(n, size, 0).start == 0
    ensures Partition(n, size, size - 1).end == n
  {
    PartitionContiguous(n, size, size - 1);
  }

  /** Blocks of lower ranks lie entirely before blocks of higher ranks, so no two overlap. */
  lemma {:induction false} PartitionOrdered(n: int, size: int, r1: int, r2: int)
    requires ValidGroup(n, size) && 0 <= r1 < r2 < size
    ensures Partition(n, size, r1).end <= Partition(n, size, r2).start
    decreases r2 - r1
  {
    PartitionContiguous(n, size, r1);
    if r1 + 1 < r2 {
      PartitionOrdered(n, size, r1 + 1, r2);
    }
  }

  /** Σ_{r < k} local_rows(r): the rows owned by the ranks below k. */
  function RowsBelow(n: int, size: int, k: int): int
    requires ValidGroup(n, size) && 0 <= k <= size
  {
    if k == 0 then 0 else RowsBelow(n, size, k - 1) + LocalRows(n, size, k - 1)
  }

  /** The rows of the ranks below k are exactly the rows before start_row(k). */
  lemma {:induction false} RowsBelowIsStart(n: int, size: int, k: int)
    requires ValidGroup(n, size) && 0 <= k <= size
    ensures RowsBelow(n, size, k) == StartRow(n, size, k)
  {
    if k > 0 {
      RowsBelowIsStart(n, size, k - 1);
      PartitionContiguous(n, size, k - 1);
    }
  }

  /** The local row counts of all ranks add up to n. */
  lemma LocalRowsSum(n: int, size: int)
    requires ValidGroup(n, size)
    ensures RowsBelow(n, size, size) == n
  {
    RowsBelowIsStart(n, size, size);
  }

  /**
   * The rank that owns a given row, computed in closed form from the row
   * index: the first remainder * (q + 1) rows are in blocks of q + 1, the
   * rest in blocks of q.
   */
  function Owner(n: int, size: int, row: int): (r: int)
    requires ValidGroup(n, size) && 0 <= row < n
    ensures 0 <= r < size && Partition(n, size, r).Contains(row)
  {
    var q, rem := n / size, n % size;
    var big := rem * (q + 1);
    if row < big then
      var r := row / (q + 1);
      OwnerInLongBlocks(n, size, row, r);
      r
    else
      OwnerInShortBlocks(n, size, row);
      rem + (row - big) / q
  }

  lemma OwnerInLongBlocks(n: int, size: int, row: int, r: int)
    requires ValidGroup(n, size) && 0 <= row < n % size * (n / size + 1)
    requires r == row / (n / size + 1)
    ensures 0 <= r < n % size && r < size
    ensures StartRow(n, size, r) <= row < StartRow(n, size, r) + n / size + 1
  {
    var q, rem := n / size, n % size;
    assert row == r * (q + 1) + row % (q + 1);
    if r >= rem {
      MulLe(rem, r, q + 1);
    }
    assert StartRow(n, size, r) == r * q + r == r * (q + 1);
  }

  lemma OwnerInShortBlocks(n: int, size: int, row: int)
    requires ValidGroup(n, size) && n % size * (n / size + 1) <= row < n
    ensures n / size > 0
    ensures var r := n % size + (row - n % size * (n / size + 1)) / (n / size);
      n % size <= r < size &&
      StartRow(n, size, r) <= row < StartRow(n, size, r) + n / size
  {
    var q, rem := n / size, n % size;
    var big := rem * (q + 1);
    ShortBlocksExist(n, size, row);
    var d := (row - big) / q;
    assert row - big == d * q + (row - big) % q;
    MulAddDistrib(rem, q, 1);
    MulAddDistrib(size - rem, rem, q);
    ShortBlockIndex(n - big, row - big, size - rem, q, d);
    MulAddDistrib(rem, d, q);
  }

  /** Past the long blocks there are rows only when the short blocks are non-empty. */
  lemma ShortBlocksExist(n: int, size: int, row: int)
    requires ValidGroup(n, size) && n % size * (n / size + 1) <= row < n
    ensures n / size > 0
  {
    assert n == size * (n / size) + n % size;
  }

  /** An offset below m * q into blocks of q lies in block d < m, where d * q <= offset. */
  lemma ShortBlockIndex(span: int, offset: int, m: int, q: int, d: int)
    requires 0 < q && span == m * q && 0 <= offset < span
    requires 0 <= offset - d * q < q
    ensures 0 <= d < m
  {
    if d >= m {
      MulLe(m, d, q);
    } else if d < 0 {
      MulLe(d + 1, 0, q);
    }
  }

  /** A row is contained in exactly one block: the owner's. */
  lemma OwnerUnique(n: int, size: int, rank: int, row: int)
    requires ValidGroup(n, size) && 0 <= rank < size
    requires Partition(n, size, rank).Contains(row)
    ensures 0 <= row < n && Owner(n, size, row) == rank
  {
    var o := Owner(n, size, row);
    if o < rank {
      PartitionOrdered(n, size, o, rank);
    } else if rank < o {
      PartitionOrdered(n, size, rank, o);
    }
  }

  /**
   * Fairness: any two ranks' row counts differ by at most one, and the extra
   * rows go to the lowest ranks.
   */
  lemma PartitionBalanced(n: int, size: int, r1: int, r2: int)
    requires ValidGroup(n, size) && 0 <= r1 < size && 0 <= r2 < size
    ensures LocalRows(n, size, r1) <= LocalRows(n, size, r2) + 1
    ensures r1 <= r2 ==> LocalRows(n, size, r2) <= LocalRows(n, size, r1)
    ensures LocalRows(n, size, r1) == n / size + 1 <==> r1 < n % size
  {
  }

  /** With more ranks than rows, every rank from n on gets the empty block [n, n). */
  lemma ZeroRowsBeyondN(n: int, size: int, rank: int)
    requires ValidGroup(n, size) && n <= rank < size
    ensures Partition(n, size, rank) == Interval(n, n)
  {
    assert n / size == 0 && n % size == n;
  }
}
