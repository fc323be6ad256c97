/**
 * The element-range partition of shared/mpi_parallel_sum.c (lines 38-48),
 * for any array length `total` (the source fixes it at ARRAY_SIZE = 1000000):
 * every rank is responsible for ARRAY_SIZE / size consecutive elements of
 * the logical array and the last rank also takes the ARRAY_SIZE % size
 * elements left over. Each rank sums its local part (lines 77-79) and the
 * local sums are reduced by addition at the root (line 83).
 */
module SumPartition {
  import opened Common

  /**
   * `start_idx` and `end_idx` (lines 42-46) for `total` elements: the last
   * rank adds the remainder to its end.
   */
  function Range(total: int, size: int, rank: int): (e: Interval)
    requires ValidGroup(total, size) && 0 <= rank < size
    ensures 0 <= e.start <= e.end <= total
  {
    var per, rem := total / size, total % size;
    DivMod(total, size);
    MulLe(rank + 1, size, per);
    MulLe(0, rank, per);
    MulAddDistrib(rank, 1, per);
    var start := rank * per;
    var end := start + per + (if rank == size - 1 then rem else 0);
    Interval(start, end)
  }

  /** `local_size` (line 48): the length of the buffer allocated at line 54. */
  function LocalSize(total: int, size: int, rank: int): (len: nat)
    requires ValidGroup(total, size) && 0 <= rank < size
    ensures len <= total
  {
    Range(total, size, rank).Length()
  }

  /**
   * Every rank but the last owns exactly total / size elements; the last
   * owns total % size more, and that remainder is below the group size.
   */
  lemma LocalSizes(total: int, size: int, rank: int)
    requires ValidGroup(total, size) && 0 <= rank < size
    ensures rank < size - 1 ==> LocalSize(total, size, rank) == total / size
    ensures LocalSize(total, size, size - 1) == total / size + total % size
    ensures LocalSize(total, size, size - 1) - LocalSize(total, size, rank) ==
      if rank < size - 1 then total % size else 0
    ensures 0 <= total % size < size
  {
  }

  /** Consecutive ranks own adjacent ranges. */
  lemma RangeContiguous(total: int, size: int, rank: int)
    requires ValidGroup(total, size) && 0 <= rank < size - 1
    ensures Range(total, size, rank).end == Range(total, size, rank + 1).start
  {
    MulAddDistrib(rank, 1, total / size);
  }

  /** The ranges start at element 0 and the last one ends at element total. */
  lemma RangeEnds(total: int, size: int)
    requires ValidGroup(total, size)
    ensures Range(total, size, 0).start == 0
    ensures Range(total, size, size - 1).end == total
  {
    var per := total / size;
    assert total == size * per + total % size;
    MulAddDistrib(size - 1, 1, per);
  }

  /** Ranges of lower ranks lie entirely before ranges of higher ranks, so no two overlap. */
  lemma {:induction false} RangeOrdered(total: int, size: int, r1: int, r2: int)
    requires ValidGroup(total, size) && 0 <= r1 < r2 < size
    ensures Range(total, size, r1).end <= Range(total, size, r2).start
    decreases r2 - r1
  {
    RangeContiguous(total, size, r1);
    if r1 + 1 < r2 {
      RangeOrdered(total, size, r1 + 1, r2);
    }
  }

  /** Σ_{r < k} local_size(r) */
  function SizesBelow(total: int, size: int, k: int): int
    requires ValidGroup(total, size) && 0 <= k <= size
  {
    if k == 0 then 0 else SizesBelow(total, size, k - 1) + LocalSize(total, size, k - 1)
  }

  /** The elements of the ranks below k are those before rank k's start, and all ranks together own total. */
  lemma {:induction false} SizesBelowIsStart(total: int, size: int, k: int)
    requires ValidGroup(total, size) && 0 <= k <= size
    ensures k < size ==> SizesBelow(total, size, k) == Range(total, size, k).start
    ensures k == size ==> SizesBelow(total, size, k) == total
  {
    if k > 0 {
      SizesBelowIsStart(total, size, k - 1);
      if k < size {
        RangeContiguous(total, size, k - 1);
      } else {
        RangeEnds(total, size);
      }
    }
  }

  /** The rank responsible for element x, computed in closed form from x. */
  function Owner(total: int, size: int, x: int): (r: int)
    requires ValidGroup(total, size) && 0 <= x < total
    ensures 0 <= r < size && Range(total, size, r).Contains(x)
  {
    var per := total / size;
    OwnerContains(total, size, x);
    if per == 0 || x / per >= size - 1 then size - 1 else x / per
  }

  lemma OwnerContains(total: int, size: int, x: int)
    requires ValidGroup(total, size) && 0 <= x < total
    ensures var per := total / size;
      var r := if per == 0 || x / per >= size - 1 then size - 1 else x / per;
      0 <= r < size && Range(total, size, r).Contains(x)
  {
    var per := total / size;
    if per == 0 {
      OwnerInRemainder(total, size, x);
    } else if x / per >= size - 1 {
      OwnerInLast(total, size, x);
    } else {
      OwnerInBlock(total, size, x);
    }
  }

  lemma OwnerInRemainder(total: int, size: int, x: int)
    requires ValidGroup(total, size) && 0 <= x < total && total / size == 0
    ensures Range(total, size, size - 1).Contains(x)
  {
    RangeEnds(total, size);
  }

  lemma OwnerInLast(total: int, size: int, x: int)
    requires ValidGroup(total, size) && 0 <= x < total
    requires total / size > 0 && x / (total / size) >= size - 1
    ensures Range(total, size, size - 1).Contains(x)
  {
    var per := total / size;
    DivMod(x, per);
    MulLe(size - 1, x / per, per);
    RangeEnds(total, size);
  }

  lemma OwnerInBlock(total: int, size: int, x: int)
    requires ValidGroup(total, size) && 0 <= x < total
    requires total / size > 0 && x / (total / size) < size - 1
    ensures 0 <= x / (total / size) && Range(total, size, x / (total / size)).Contains(x)
  {
    var per := total / size;
    DivMod(x, per);
    MulAddDistrib(x / per, 1, per);
  }

  /** An element lies in exactly one rank's range: its owner's. */
  lemma OwnerUnique(total: int, size: int, rank: int, x: int)
    requires ValidGroup(total, size) && 0 <= rank < size
    requires Range(total, size, rank).Contains(x)
    ensures 0 <= x < total && Owner(total, size, x) == rank
  {
    var o := Owner(total, size, x);
    if o < rank {
      RangeOrdered(total, size, o, rank);
    } else if rank < o {
      RangeOrdered(total, size, rank, o);
    }
  }

  /** Σ s[i] in index order, the order in which the loop at lines 77-79 adds. */
  function Sum(s: seq<int>): int
  {
    if |s| == 0 then 0 else Sum(s[..|s| - 1]) + s[|s| - 1]
  }

  /**
   * The local sum loop (lines 77-79) over integer elements: every index it
   * reads is below local_size, the length of `localArray`.
   */
  method LocalSum(localArray: array<int>) returns (localSum: int)
    ensures localSum == Sum(localArray[..])
  {
    localSum := 0;
    for i := 0 to localArray.Length
      invariant localSum == Sum(localArray[..i])
    {
      assert localArray[..i + 1][..i] == localArray[..i];
      localSum := localSum + localArray[i];
    }
    assert localArray[..localArray.Length] == localArray[..];
  }

  /** Sum(s[..j]) splits at any i <= j. */
  lemma {:induction false} SumSplit(s: seq<int>, i: int, j: int)
    requires 0 <= i <= j <= |s|
    ensures Sum(s[..j]) == Sum(s[..i]) + Sum(s[i..j])
    decreases j
  {
    if i < j {
      SumSplit(s, i, j - 1);
      assert s[..j][..j - 1] == s[..j - 1];
      assert s[i..j][..j - 1 - i] == s[i..j - 1];
    }
  }

  /** Σ_{r < k} of rank r's local sum, when the local arrays are the ranges of one logical array. */
  function RankSums(whole: seq<int>, size: int, k: int): int
    requires ValidGroup(|whole|, size) && 0 <= k <= size
  {
    if k == 0 then 0
    else
      var e := Range(|whole|, size, k - 1);
      RankSums(whole, size, k - 1) + Sum(whole[e.start..e.end])
  }

  /** Rank k - 1's range runs from SizesBelow(k - 1) to SizesBelow(k). */
  lemma SizesBelowStep(total: int, size: int, k: int)
    requires ValidGroup(total, size) && 0 < k <= size
    ensures SizesBelow(total, size, k - 1) == Range(total, size, k - 1).start
    ensures SizesBelow(total, size, k) == Range(total, size, k - 1).end
  {
    SizesBelowIsStart(total, size, k - 1);
  }

  lemma {:induction false} RankSumsPrefix(whole: seq<int>, size: int, k: int)
    requires ValidGroup(|whole|, size) && 0 <= k <= size
    ensures 0 <= SizesBelow(|whole|, size, k) <= |whole|
    ensures RankSums(whole, size, k) == Sum(whole[..SizesBelow(|whole|, size, k)])
  {
    if k > 0 {
      RankSumsPrefix(whole, size, k - 1);
      SizesBelowStep(|whole|, size, k);
      var e := Range(|whole|, size, k - 1);
      PrefixStep(whole, e.start, e.end, RankSums(whole, size, k - 1));
    }
  }

  /** Adding the sum of whole[lo..hi] to the sum of the prefix below lo gives the prefix below hi. */
  lemma PrefixStep(whole: seq<int>, lo: int, hi: int, acc: int)
    requires 0 <= lo <= hi <= |whole| && acc == Sum(whole[..lo])
    ensures acc + Sum(whole[lo..hi]) == Sum(whole[..hi])
  {
    SumSplit(whole, lo, hi);
  }

  /**
   * The reduction at line 83, modelled as integer addition: the local sums
   * of all ranks add up to the sum of the whole logical array.
   */
  lemma ReducedSum(whole: seq<int>, size: int)
    requires ValidGroup(|whole|, size)
    ensures RankSums(whole, size, size) == Sum(whole)
  {
    RankSumsPrefix(whole, size, size);
    SizesBelowIsStart(|whole|, size, size);
    assert whole[..|whole|] == whole;
  }
}
