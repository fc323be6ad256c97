/**
 * The distributed multiply of examples/matrix_multiply_parallel.c from
 * scatter to gather (lines 101-143): the root's A is split by the row-block
 * table, every rank multiplies its block by the full B with the inline
 * kernel, and the root gathers the result blocks with the same table.
 */
module Distributed {
  import opened Common
  import opened RowPartition
  import opened Displacement
  import opened MatMul

  /** The result block each rank computes from the chunk of A it received (lines 116-123). */
  function LocalResults(parts: seq<seq<int>>, B: seq<int>, n: int, size: int): (results: seq<seq<int>>)
    requires ValidGroup(n, size) && |B| == n * n && Matches(parts, Table(n, size))
    ensures Matches(results, Table(n, size))
  {
    seq(size, r requires 0 <= r < size => Product(parts[r], B, n, LocalRows(n, size, r)))
  }

  /**
   * The product as the root holds it after the gather: A scattered with the
   * row-block table, each block multiplied locally, the blocks gathered with
   * the same table into the root's receive buffer `init`.
   */
  function DistributedProduct(A: seq<int>, B: seq<int>, n: int, size: int, init: seq<int>): (C: seq<int>)
    requires ValidGroup(n, size) && |A| == n * n && |B| == n * n && |init| == n * n
    ensures |C| == n * n
  {
    var t := Table(n, size);
    TableTiles(n, size);
    Gather(LocalResults(Scatter(A, t), B, n, size), t, init)
  }

  /**
   * The distributed product equals the single-process product of the full
   * matrices, element for element, for every group size (ranks beyond row
   * n included, with their empty blocks) and whatever the root's receive
   * buffer held before the gather.
   */
  lemma DistributedProductCorrect(A: seq<int>, B: seq<int>, n: int, size: int, init: seq<int>)
    requires ValidGroup(n, size) && |A| == n * n && |B| == n * n && |init| == n * n
    ensures DistributedProduct(A, B, n, size, init) == Product(A, B, n, n)
  {
    var t := Table(n, size);
    var P := Product(A, B, n, n);
    TableTiles(n, size);
    var results := LocalResults(Scatter(A, t), B, n, size);
    forall r | 0 <= r < size
      ensures results[r] == Scatter(P, t)[r]
    {
      var p := Partition(n, size, r);
      ProductRowBlock(A, B, n, p.start, p.Length());
    }
    assert results == Scatter(P, t);
    GatherScatter(P, t, init);
  }
}
