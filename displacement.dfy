/**
 * The element-level (count, offset) pairs that describe each rank's chunk of
 * a row-major n x n buffer in examples/matrix_multiply_parallel.c, and the
 * variable-length scatter (lines 101-109) and gather (lines 135-143) that use
 * them, modelled as slicing and placement on sequences.
 */
module Displacement {
  import opened Common
  import opened RowPartition

  /** One rank's chunk: `count` elements starting at element `offset`. */
  datatype Chunk = Chunk(count: int, offset: int)
  {
    function End(): int { offset + count }
  }

  /**
   * (local_rows * n, start_row * n): the pair passed as send count and
   * displacement at lines 102-103 and, built from the same expressions, as
   * receive count and displacement at lines 139-140.
   */
  function ChunkOf(n: int, size: int, rank: int): (c: Chunk)
    requires ValidGroup(n, size) && 0 <= rank < size
    ensures 0 <= c.count && 0 <= c.offset && c.End() <= n * n
  {
    var p := Partition(n, size, rank);
    MulLe(p.end, n, n);
    MulLe(0, p.start, n);
    MulLe(0, p.Length(), n);
    MulAddDistrib(p.start, p.Length(), n);
    Chunk(p.Length() * n, p.start * n)
  }

  /** The chunk of every rank, in rank order: the table a root-side collective reads. */
  function Table(n: int, size: int): (t: seq<Chunk>)
    requires ValidGroup(n, size)
    ensures |t| == size
  {
    seq(size, r requires 0 <= r < size => ChunkOf(n, size, r))
  }

  /** Every chunk of `t` has a non-negative count and lies inside a buffer of `len` elements. */
  predicate Fits(t: seq<Chunk>, len: int)
  {
    forall r :: 0 <= r < |t| ==> 0 <= t[r].count && 0 <= t[r].offset && t[r].End() <= len
  }

  /** Σ_{r < k} t[r].count */
  function CountsBelow(t: seq<Chunk>, k: int): int
    requires 0 <= k <= |t|
  {
    if k == 0 then 0 else CountsBelow(t, k - 1) + t[k - 1].count
  }

  /**
   * The chunks of `t` tile [0, total): each one starts where the chunks of
   * the lower ranks end, and together they end at `total`.
   */
  predicate Tiles(t: seq<Chunk>, total: int)
  {
    Fits(t, total) &&
    (forall r {:trigger CountsBelow(t, r)} :: 0 <= r < |t| ==> t[r].offset == CountsBelow(t, r)) &&
    CountsBelow(t, |t|) == total
  }

  lemma {:induction false} CountsBelowMono(t: seq<Chunk>, i: int, j: int)
    requires Fits(t, CountsBelow(t, |t|)) && 0 <= i <= j <= |t|
    ensures CountsBelow(t, i) <= CountsBelow(t, j)
    decreases j - i
  {
    if i < j {
      CountsBelowMono(t, i, j - 1);
    }
  }

  /** In a tiling, a lower rank's chunk ends before a higher rank's chunk begins. */
  lemma TilesDisjoint(t: seq<Chunk>, total: int, r1: int, r2: int)
    requires Tiles(t, total) && 0 <= r1 < r2 < |t|
    ensures t[r1].End() <= t[r2].offset
  {
    CountsBelowMono(t, r1 + 1, r2);
  }

  lemma {:induction false} TableCountsBelow(n: int, size: int, k: int)
    requires ValidGroup(n, size) && 0 <= k <= size
    ensures CountsBelow(Table(n, size), k) == RowsBelow(n, size, k) * n
  {
    if k > 0 {
      TableCountsBelow(n, size, k - 1);
      MulAddDistrib(RowsBelow(n, size, k - 1), LocalRows(n, size, k - 1), n);
    }
  }

  /** The chunks computed by the per-rank formula tile the whole n x n buffer. */
  lemma TableTiles(n: int, size: int)
    requires ValidGroup(n, size)
    ensures Tiles(Table(n, size), n * n)
  {
    var t := Table(n, size);
    TableCountsBelow(n, size, size);
    LocalRowsSum(n, size);
    forall r | 0 <= r < size
      ensures t[r].offset == CountsBelow(t, r)
    {
      TableCountsBelow(n, size, r);
      RowsBelowIsStart(n, size, r);
    }
  }

  /**
   * MPI_Scatterv at lines 101-109, at the level of buffers: rank r receives
   * the `count` elements of the root's buffer that start at its `offset`.
   */
  function Scatter<T>(buf: seq<T>, t: seq<Chunk>): (parts: seq<seq<T>>)
    requires Fits(t, |buf|)
    ensures |parts| == |t|
    ensures forall r :: 0 <= r < |t| ==> |parts[r]| == t[r].count
  {
    seq(|t|, r requires 0 <= r < |t| => buf[t[r].offset..t[r].End()])
  }

  /** Writes `part` into `buf` at `offset`, leaving every other element as it was. */
  function Place<T>(buf: seq<T>, part: seq<T>, offset: int): (res: seq<T>)
    requires 0 <= offset && offset + |part| <= |buf|
    ensures |res| == |buf|
    ensures forall x :: 0 <= x < |buf| ==>
      res[x] == if offset <= x < offset + |part| then part[x - offset] else buf[x]
  {
    seq(|buf|, x requires 0 <= x < |buf| => if offset <= x < offset + |part| then part[x - offset] else buf[x])
  }

  /** Every rank contributes exactly the number of elements the table expects of it. */
  predicate Matches<T>(parts: seq<seq<T>>, t: seq<Chunk>)
  {
    |parts| == |t| && forall r :: 0 <= r < |t| ==> |parts[r]| == t[r].count
  }

  /**
   * MPI_Gatherv at lines 135-143, at the level of buffers: the chunks of
   * ranks 0 .. k-1 placed, in rank order, at their offsets in the root's
   * receive buffer, whose prior contents are `init`.
   */
  function GatherUpTo<T>(parts: seq<seq<T>>, t: seq<Chunk>, init: seq<T>, k: int): (res: seq<T>)
    requires Matches(parts, t) && Fits(t, |init|) && 0 <= k <= |t|
    ensures |res| == |init|
  {
    if k == 0 then init
    else Place(GatherUpTo(parts, t, init, k - 1), parts[k - 1], t[k - 1].offset)
  }

  function Gather<T>(parts: seq<seq<T>>, t: seq<Chunk>, init: seq<T>): (res: seq<T>)
    requires Matches(parts, t) && Fits(t, |init|)
    ensures |res| == |init|
  {
    GatherUpTo(parts, t, init, |t|)
  }

  /** The chunk of rank r in a tiling starts at CountsBelow(t, r) and ends at CountsBelow(t, r + 1). */
  lemma TilesChunk(t: seq<Chunk>, total: int, r: int)
    requires Tiles(t, total) && 0 <= r < |t|
    ensures t[r].offset == CountsBelow(t, r) && t[r].End() == CountsBelow(t, r + 1)
    ensures 0 <= t[r].offset <= t[r].End() <= total
  {
  }

  /** Rank r's part of a scatter is the slice of the buffer its chunk names. */
  lemma ScatterPart<T>(buf: seq<T>, t: seq<Chunk>, r: int)
    requires Fits(t, |buf|) && 0 <= r < |t|
    ensures 0 <= t[r].offset <= t[r].End() <= |buf|
    ensures Scatter(buf, t)[r] == buf[t[r].offset..t[r].End()]
  {
  }

  /**
   * One gather step at element x: placing the slice buf[lo..hi] at lo into a
   * buffer that agrees with buf below lo and with init from lo on.
   */
  lemma PlaceSliceAt<T>(g: seq<T>, buf: seq<T>, init: seq<T>, lo: int, hi: int, x: int)
    requires |g| == |buf| == |init| && 0 <= lo <= hi <= |buf| && 0 <= x < |buf|
    requires g[x] == if x < lo then buf[x] else init[x]
    ensures Place(g, buf[lo..hi], lo)[x] == if x < hi then buf[x] else init[x]
  {
  }

  /** The chunks of ranks 0 .. k-1 each start where the lower ranks' chunks end. */
  predicate TilesUpTo(t: seq<Chunk>, k: int)
    requires 0 <= k <= |t|
  {
    k == 0 || (TilesUpTo(t, k - 1) && t[k - 1].offset == CountsBelow(t, k - 1))
  }

  lemma {:induction false} TilesPrefix(t: seq<Chunk>, total: int, k: int)
    requires Tiles(t, total) && 0 <= k <= |t|
    ensures TilesUpTo(t, k)
  {
    if k > 0 {
      TilesPrefix(t, total, k - 1);
      TilesChunk(t, total, k - 1);
    }
  }

  lemma {:induction false} GatherUpToScatterAt<T>(buf: seq<T>, t: seq<Chunk>, init: seq<T>, k: int, x: int)
    requires Fits(t, |buf|) && |init| == |buf| && 0 <= k <= |t| && 0 <= x < |buf|
    requires TilesUpTo(t, k)
    ensures GatherUpTo(Scatter(buf, t), t, init, k)[x] == if x < CountsBelow(t, k) then buf[x] else init[x]
  {
    if k > 0 {
      var parts := Scatter(buf, t);
      GatherUpToScatterAt(buf, t, init, k - 1, x);
      ScatterPart(buf, t, k - 1);
      PlaceSliceAt(GatherUpTo(parts, t, init, k - 1), buf, init, CountsBelow(t, k - 1), CountsBelow(t, k), x);
    }
  }

  /**
   * Scattering a buffer and gathering the chunks back with the same tiling
   * table reassembles the buffer exactly, whatever the receive buffer held.
   */
  lemma GatherScatter<T>(buf: seq<T>, t: seq<Chunk>, init: seq<T>)
    requires Tiles(t, |buf|) && |init| == |buf|
    ensures Gather(Scatter(buf, t), t, init) == buf
  {
    forall x | 0 <= x < |buf|
      ensures Gather(Scatter(buf, t), t, init)[x] == buf[x]
    {
      TilesPrefix(t, |buf|, |t|);
      GatherUpToScatterAt(buf, t, init, |t|, x);
    }
  }

  /** One gather step at element x, on two receive buffers that agree below lo. */
  lemma PlaceAgreesAt<T>(g1: seq<T>, g2: seq<T>, init1: seq<T>, part: seq<T>, lo: int, x: int)
    requires |g1| == |g2| == |init1| && 0 <= lo && lo + |part| <= |g1| && 0 <= x < |g1|
    requires g1[x] == if x < lo then g2[x] else init1[x]
    ensures Place(g1, part, lo)[x] == if x < lo + |part| then Place(g2, part, lo)[x] else init1[x]
  {
  }

  lemma {:induction false} GatherUpToIndependentAt<T>(parts: seq<seq<T>>, t: seq<Chunk>, init1: seq<T>, init2: seq<T>, k: int, x: int)
    requires Matches(parts, t) && Fits(t, |init1|) && |init2| == |init1| && 0 <= k <= |t| && 0 <= x < |init1|
    requires TilesUpTo(t, k)
    ensures GatherUpTo(parts, t, init1, k)[x] ==
      if x < CountsBelow(t, k) then GatherUpTo(parts, t, init2, k)[x] else init1[x]
  {
    if k > 0 {
      GatherUpToIndependentAt(parts, t, init1, init2, k - 1, x);
      PlaceAgreesAt(GatherUpTo(parts, t, init1, k - 1), GatherUpTo(parts, t, init2, k - 1), init1,
        parts[k - 1], t[k - 1].offset, x);
    }
  }

  /**
   * With a tiling table the gather writes every element of the root's
   * receive buffer: its result does not depend on what the buffer held.
   */
  lemma GatherFillsBuffer<T>(parts: seq<seq<T>>, t: seq<Chunk>, init1: seq<T>, init2: seq<T>)
    requires Matches(parts, t) && Tiles(t, |init1|) && |init2| == |init1|
    ensures Gather(parts, t, init1) == Gather(parts, t, init2)
  {
    forall x | 0 <= x < |init1|
      ensures Gather(parts, t, init1)[x] == Gather(parts, t, init2)[x]
    {
      TilesPrefix(t, |init1|, |t|);
      GatherUpToIndependentAt(parts, t, init1, init2, |t|, x);
    }
  }

  /**
   * The count and displacement arrays as the source passes them at lines
   * 102-103 and 139-140: one-element compound literals holding only the
   * calling rank's own pair, which at the root is rank 0's.
   */
  function RootTableAsWritten(n: int, size: int): (t: seq<Chunk>)
    requires ValidGroup(n, size)
    ensures |t| == 1
  {
    [ChunkOf(n, size, 0)]
  }

  /**
   * With two or more ranks, whatever n is, the table the root passes has
   * fewer entries than the group has ranks: the collective reads past its end.
   */
  lemma RootTableAsWrittenTooShort(n: int, size: int)
    requires ValidGroup(n, size) && size >= 2
    ensures |RootTableAsWritten(n, size)| < size
  {
  }

  /**
   * With two or more ranks and rows, the one chunk of that table does not
   * cover the n x n buffer.
   */
  lemma RootTableAsWrittenFallsShort(n: int, size: int)
    requires ValidGroup(n, size) && size >= 2 && n >= 2
    ensures !Tiles(RootTableAsWritten(n, size), n * n)
  {
    var q, rem := n / size, n % size;
    assert n == size * q + rem;
    MulLe(2, size, q);
    assert LocalRows(n, size, 0) < n;
    var t := RootTableAsWritten(n, size);
    assert CountsBelow(t, 1) == LocalRows(n, size, 0) * n;
    MulLe(LocalRows(n, size, 0) + 1, n, n);
  }
}
