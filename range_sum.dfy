/**
 * The per-rank range sum of shared/hello_mpi.c (lines 24-38): rank r adds
 * up the integers of [r * 1000000, (r + 1) * 1000000) in a 64-bit
 * accumulator, and the local sums are reduced by addition at rank 0.
 */
module RangeSum {
  import opened Common

  /** How many integers each rank adds up (the literal 1000000 at lines 25-26). */
  const Span: int := 1000000

  const Int32Max: int := 0x7fff_ffff
  const Int64Max: int := 0x7fff_ffff_ffff_ffff

  /** x is a value of C's `long long`. */
  predicate InInt64(x: int) { -0x8000_0000_0000_0000 <= x <= Int64Max }

  /** x reduced to the 32-bit two's-complement range. */
  function Wrap32(x: int): (w: int)
    ensures -0x8000_0000 <= w <= Int32Max
    ensures (w - x) % 0x1_0000_0000 == 0
    ensures -0x8000_0000 <= x <= Int32Max ==> w == x
  {
    (x + 0x8000_0000) % 0x1_0000_0000 - 0x8000_0000
  }

  /**
   * `start_val` as written (line 25): `world_rank * 1000000` is a product of
   * two `int`s, so it is formed in 32 bits before it is widened to
   * `long long`. Signed overflow is undefined in C; the model takes the
   * usual two's-complement wrap.
   */
  function StartValAsWritten(rank: int): (v: int)
    requires 0 <= rank < Int32Max
    ensures -0x8000_0000 <= v <= Int32Max
    ensures rank <= 2147 ==> v == StartVal(rank)
  {
    Wrap32(rank * Span)
  }

  /** `end_val` as written (line 26): `(world_rank + 1) * 1000000`, formed in 32 bits. */
  function EndValAsWritten(rank: int): (v: int)
    requires 0 <= rank < Int32Max
    ensures -0x8000_0000 <= v <= Int32Max
    ensures rank <= 2146 ==> v == EndVal(rank)
  {
    Wrap32((rank + 1) * Span)
  }

  /** The first integer of rank r's range, computed in 64 bits as the `long long` declaration intends. */
  function StartVal(rank: int): (s: int)
    ensures s % Span == 0 && s / Span == rank
  {
    rank * Span
  }

  /** One past the last integer of rank r's range, computed in 64 bits. */
  function EndVal(rank: int): (e: int)
    ensures e == StartVal(rank + 1) && e - StartVal(rank) == Span
  {
    (rank + 1) * Span
  }

  /** Every rank's range holds exactly Span integers and ends where the next rank's begins. */
  lemma RangesAdjacent(rank: int)
    requires 0 <= rank
    ensures EndVal(rank) - StartVal(rank) == Span
    ensures EndVal(rank) == StartVal(rank + 1)
    ensures rank > 0 ==> StartVal(rank) == EndVal(rank - 1)
  {
  }

  /**
   * The 32-bit products give the intended range exactly for ranks up to
   * 2146, and a different one for every higher rank.
   */
  lemma AsWrittenRangeExact(rank: int)
    requires 0 <= rank < Int32Max
    ensures StartValAsWritten(rank) == StartVal(rank) && EndValAsWritten(rank) == EndVal(rank)
      <==> rank <= 2146
  {
    if rank <= 2146 {
      assert (rank + 1) * Span <= 2147 * Span;
    } else {
      assert (rank + 1) * Span >= 2148 * Span;
    }
  }

  /** Σ_{i = lo}^{hi - 1} i, and 0 for an empty range. */
  function SeriesSum(lo: int, hi: int): int
    decreases hi - lo
  {
    if hi <= lo then 0 else SeriesSum(lo, hi - 1) + (hi - 1)
  }

  /** Closed form of the arithmetic series: 2 Σ_{i = lo}^{hi - 1} i == (hi - lo)(lo + hi - 1). */
  lemma {:induction false} SeriesClosedForm(lo: int, hi: int)
    requires lo <= hi
    ensures 2 * SeriesSum(lo, hi) == (hi - lo) * (lo + hi - 1)
    decreases hi - lo
  {
    if lo < hi {
      SeriesClosedForm(lo, hi - 1);
    }
  }

  /** Adjacent ranges add up: Σ over [lo, hi) is Σ over [lo, mid) plus Σ over [mid, hi). */
  lemma {:induction false} SeriesSplit(lo: int, mid: int, hi: int)
    requires lo <= mid <= hi
    ensures SeriesSum(lo, hi) == SeriesSum(lo, mid) + SeriesSum(mid, hi)
    decreases hi - mid
  {
    if mid < hi {
      SeriesSplit(lo, mid, hi - 1);
    }
  }

  /** On a range of non-negative integers the partial sums only grow. */
  lemma {:induction false} SeriesMono(lo: int, i: int, hi: int)
    requires 0 <= lo <= i <= hi
    ensures 0 <= SeriesSum(lo, i) <= SeriesSum(lo, hi)
    decreases hi - i, i - lo
  {
    if i < hi {
      SeriesMono(lo, i, hi - 1);
    } else if lo < i {
      SeriesMono(lo, i - 1, i - 1);
    }
  }

  /**
   * The loop at lines 24 and 30-32: `local_sum` starts at 0 and adds every i
   * of [start_val, end_val), with the range computed in 64 bits. Below rank
   * 9223372 the `long long` accumulator and loop variable never overflow;
   * from that rank on the loop overflows, which C leaves undefined.
   */
  method LocalRangeSum(rank: int) returns (localSum: int)
    requires 0 <= rank < 9223372
    ensures InInt64(localSum)
    ensures localSum == SeriesSum(StartVal(rank), EndVal(rank))
    ensures localSum == Span * StartVal(rank) + Span * (Span - 1) / 2
  {
    var startVal, endVal := StartVal(rank), EndVal(rank);
    localSum := 0;
    var i := startVal;
    while i < endVal
      invariant startVal <= i <= endVal
      invariant localSum == SeriesSum(startVal, i)
      invariant InInt64(localSum) && InInt64(i)
    {
      localSum := localSum + i;
      i := i + 1;
      LocalSumFitsInt64(rank, i);
    }
    SeriesClosedForm(startVal, endVal);
  }

  /** Below rank 9223372 every value `local_sum` takes in the loop fits in a `long long`. */
  lemma LocalSumFitsInt64(rank: int, i: int)
    requires 0 <= rank < 9223372 && StartVal(rank) <= i <= EndVal(rank)
    ensures InInt64(SeriesSum(StartVal(rank), i))
  {
    var lo := StartVal(rank);
    SeriesMono(lo, i, EndVal(rank));
    SeriesClosedForm(lo, EndVal(rank));
    assert lo <= 9223371 * Span;
  }

  /** The reduction at line 38 as integer addition: Σ_{r < size} local_sum(r). */
  function GlobalSum(size: int): (g: int)
    requires 0 <= size
    ensures 0 <= g
  {
    if size == 0 then 0
    else
      SeriesMono(StartVal(size - 1), EndVal(size - 1), EndVal(size - 1));
      GlobalSum(size - 1) + SeriesSum(StartVal(size - 1), EndVal(size - 1))
  }

  /** The reduced sum is the sum of all integers below size * 1000000. */
  lemma {:induction false} GlobalSumIsSeries(size: int)
    requires 0 <= size
    ensures GlobalSum(size) == SeriesSum(0, size * Span)
  {
    if size > 0 {
      GlobalSumIsSeries(size - 1);
      SeriesSplit(0, (size - 1) * Span, size * Span);
    }
  }

  /** s * (s - 1), twice the sum of all integers below s, fits in 2 * Int64Max exactly when s <= 2^32. */
  lemma ConsecutiveProductBound(s: int)
    requires 0 <= s
    ensures 0 <= s * (s - 1)
    ensures s * (s - 1) <= 2 * Int64Max <==> s <= 0x1_0000_0000
  {
    if s == 0 {
    } else if s <= 0x1_0000_0000 {
      MulLe(0, s, s - 1);
      MulLe(s, 0x1_0000_0000, s - 1);
      MulLe(s - 1, 0xffff_ffff, 0x1_0000_0000);
    } else {
      MulLe(0x1_0000_0001, s, s - 1);
      MulLe(0x1_0000_0000, s - 1, 0x1_0000_0001);
    }
  }

  /** The reduced sum fits in a `long long` exactly when there are at most 4294 ranks. */
  lemma GlobalSumFitsInt64(size: int)
    requires 0 <= size
    ensures InInt64(GlobalSum(size)) <==> size <= 4294
  {
    var s := size * Span;
    GlobalSumIsSeries(size);
    SeriesClosedForm(0, s);
    ConsecutiveProductBound(s);
  }

  /** The reduction at line 38 over the ranges as the source computes them. */
  function GlobalSumAsWritten(size: int): int
    requires 0 <= size <= Int32Max
  {
    if size == 0 then 0
    else GlobalSumAsWritten(size - 1) + SeriesSum(StartValAsWritten(size - 1), EndValAsWritten(size - 1))
  }

  /** Up to 2147 ranks the source's 32-bit ranges give the intended reduced sum. */
  lemma {:induction false} GlobalSumAsWrittenExact(size: int)
    requires 0 <= size <= 2147
    ensures GlobalSumAsWritten(size) == GlobalSum(size)
  {
    if size > 0 {
      GlobalSumAsWrittenExact(size - 1);
      AsWrittenRangeExact(size - 1);
    }
  }

  /**
   * With 2148 ranks, rank 2147's `end_val` wraps to a negative value, its
   * loop runs zero times, and its share is missing from the reduced sum.
   */
  lemma GlobalSumAsWrittenDropsRank2147()
    ensures EndValAsWritten(2147) < 0 < StartValAsWritten(2147)
    ensures GlobalSumAsWritten(2148) == GlobalSum(2147)
    ensures GlobalSumAsWritten(2148) < GlobalSum(2148)
  {
    GlobalSumAsWrittenExact(2147);
    SeriesClosedForm(StartVal(2147), EndVal(2147));
  }
}
