# Work splitting and index arithmetic of the MPI examples, in Dafny

This project models the integer logic of three MPI example programs and proves
what that logic promises:

- `examples/matrix_multiply_parallel.c` multiplies two n x n matrices over a
  group of ranks. Every rank computes its own block of rows: `n / size` rows,
  plus one extra row for each of the `n % size` lowest ranks. The root scatters
  the row blocks of A with element-level (count, offset) pairs. Every rank
  multiplies its block by the full B. The root gathers the result blocks with
  the same pairs.
  - `partition.dfy` (module `RowPartition`) has the row partition.
  - `displacement.dfy` (module `Displacement`) has the (count, offset) table.
    It also models the scatter as slicing and the gather as placement.
  - `matmul.dfy` (module `MatMul`) has the multiply loop nest as methods on
    integer arrays.
  - `distributed.dfy` (module `Distributed`) proves the whole pipeline
    correct: scatter, then the local multiply, then gather, gives the
    single-process product.
- `shared/mpi_parallel_sum.c` splits an array of ARRAY_SIZE elements by a
  different rule: the last rank takes the remainder. Each rank sums its part,
  and the local sums are reduced. This is `sum_partition.dfy`
  (module `SumPartition`).
- `shared/hello_mpi.c` has each rank add up the integers of
  `[rank * 1000000, (rank + 1) * 1000000)` in a `long long`. The local sums
  are reduced at rank 0. This is `range_sum.dfy` (module `RangeSum`).

`common.dfy` (module `Common`) holds what these modules share: the half-open
index range, the group assumptions, and facts about multiplication and
Euclidean division.

Matrix and array elements are Dafny `int`s: exact integers in place of the
source's `double`s. Group size, rank and matrix dimension are explicit
parameters. The source reads them from the MPI runtime and from `#define`s.

## Model

| member | source | states |
|---|---|---|
| RowPartition.StartRow | examples/matrix_multiply_parallel.c:69 | start_row lies in [0, n]; evaluated at rank == size it is n, one past the last block |
| RowPartition.Partition | examples/matrix_multiply_parallel.c:69-70 | every rank's block [start_row, end_row) satisfies 0 <= start_row <= end_row <= n |
| RowPartition.LocalRows | examples/matrix_multiply_parallel.c:71 | local_rows is n / size + 1 for the n % size lowest ranks and n / size for the others; PartitionBalanced and LocalRowsSum state what that guarantees |
| RowPartition.PartitionContiguous | examples/matrix_multiply_parallel.c:69-70 | end_row(r) == start_row(r + 1); for the last rank that is n |
| RowPartition.PartitionEnds | examples/matrix_multiply_parallel.c:65-71 | rank 0's block starts at row 0 and the last rank's block ends at row n |
| RowPartition.PartitionOrdered | examples/matrix_multiply_parallel.c:69-70 | for r1 < r2, block r1 ends before block r2 starts, so no two blocks overlap |
| RowPartition.RowsBelowIsStart | examples/matrix_multiply_parallel.c:65-71 | the local_rows of the ranks below k add up to start_row(k) |
| RowPartition.LocalRowsSum | examples/matrix_multiply_parallel.c:65-71 | the local_rows of all ranks add up to n |
| RowPartition.Owner | examples/matrix_multiply_parallel.c:65-71 | a closed-form owner function: every row in [0, n) lies in the block of some rank |
| RowPartition.OwnerUnique | examples/matrix_multiply_parallel.c:65-71 | a row in rank r's block is in [0, n) and its owner is r, so the blocks cover [0, n) exactly once |
| RowPartition.PartitionBalanced | examples/matrix_multiply_parallel.c:68-70 | local_rows of two ranks differ by at most 1; lower ranks never get fewer rows; local_rows == n / size + 1 iff rank < n % size |
| RowPartition.ZeroRowsBeyondN | examples/matrix_multiply_parallel.c:65-71 | with size > n, every rank >= n gets the empty block [n, n) |
| Displacement.ChunkOf | examples/matrix_multiply_parallel.c:102-103 | the pair (local_rows * n, start_row * n) has a non-negative count and lies inside the n * n buffer; the gather at lines 139-140 uses the same pair |
| Displacement.Table | examples/matrix_multiply_parallel.c:101-109 | the per-rank formula gives one chunk per rank, in rank order |
| Displacement.TableTiles | examples/matrix_multiply_parallel.c:102-103 | the chunks of all ranks tile [0, n * n): each offset is the sum of the lower ranks' counts, and all counts add up to n * n |
| Displacement.TilesDisjoint | examples/matrix_multiply_parallel.c:102-103 | in a tiling table, a lower rank's chunk ends at or before a higher rank's chunk starts |
| Displacement.Scatter | examples/matrix_multiply_parallel.c:101-109 | rank r receives exactly count(r) elements, the length of local_A |
| Displacement.Place | examples/matrix_multiply_parallel.c:135-143 | placing a chunk at an offset sets exactly those elements and leaves every other element as it was |
| Displacement.GatherUpTo | examples/matrix_multiply_parallel.c:135-143 | placing the chunks of ranks 0 .. k-1 keeps the root's buffer length |
| Displacement.Gather | examples/matrix_multiply_parallel.c:135-143 | the gathered buffer has the root's buffer length |
| Displacement.GatherScatter | examples/matrix_multiply_parallel.c:101-143 | gathering the scattered chunks with the same tiling table gives back the original buffer, whatever the root's receive buffer held |
| Displacement.GatherFillsBuffer | examples/matrix_multiply_parallel.c:135-143 | with a tiling table the gather writes every element: its result does not depend on the receive buffer's prior contents |
| Displacement.RootTableAsWritten | examples/matrix_multiply_parallel.c:102-103 | the arrays the source passes hold a single entry |
| Displacement.RootTableAsWrittenTooShort | examples/matrix_multiply_parallel.c:102-103 | with size >= 2, for every n, those arrays have fewer entries than the root's collective reads |
| Displacement.RootTableAsWrittenFallsShort | examples/matrix_multiply_parallel.c:102-103 | with size >= 2 and n >= 2, the one chunk in those arrays does not tile the n * n buffer |
| MatMul.CellIndexInRange | examples/matrix_multiply_parallel.c:116-123 | for i < rows and j < n the flat index i * n + j is in [0, rows * n); with rows = local_rows or n this is every index into local_A, C and B of the kernel, against the lengths allocated at lines 79-81 |
| MatMul.Product | examples/matrix_multiply_parallel.c:12-21 | the product of a rows x n and an n x n matrix has rows * n elements |
| MatMul.ProductEntry | examples/matrix_multiply_parallel.c:12-21 | product entry (i, j) is Σ_{k < n} A[i * n + k] * B[k * n + j] |
| MatMul.MultiplyRows | examples/matrix_multiply_parallel.c:116-123 | after the loop nest, C holds the local_rows x n product of local_A and B; every array index is in bounds |
| MatMul.MatrixMultiply | examples/matrix_multiply_parallel.c:12-21 | after `matrix_multiply`, C holds the n x n product of A and B |
| MatMul.ProductRowBlock | examples/matrix_multiply_parallel.c:116-123 | multiplying row block [s, s + lr) of A by B gives exactly rows s .. s + lr - 1 of the full product |
| Distributed.LocalResults | examples/matrix_multiply_parallel.c:116-123 | each rank's result block has exactly the count the gather expects from it |
| Distributed.DistributedProduct | examples/matrix_multiply_parallel.c:101-143 | scatter, local multiply and gather fill the root's n * n result buffer; DistributedProductCorrect proves its contents are the single-process product |
| Distributed.DistributedProductCorrect | examples/matrix_multiply_parallel.c:101-143 | scatter, local multiply and gather together give the single-process product, for every group size and whatever the root's buffer held |
| SumPartition.Range | shared/mpi_parallel_sum.c:42-46 | every rank's range satisfies 0 <= start_idx <= end_idx <= total |
| SumPartition.LocalSize | shared/mpi_parallel_sum.c:48 | local_size = end_idx - start_idx never exceeds total; LocalSizes states its value for every rank |
| SumPartition.LocalSizes | shared/mpi_parallel_sum.c:38-48 | every rank but the last owns total / size elements; the last owns total % size more; that difference is the remainder, which is below size |
| SumPartition.RangeContiguous | shared/mpi_parallel_sum.c:42-43 | end_idx(r) == start_idx(r + 1) for r < size - 1 |
| SumPartition.RangeEnds | shared/mpi_parallel_sum.c:38-46 | start_idx(0) == 0 and end_idx(size - 1) == total |
| SumPartition.RangeOrdered | shared/mpi_parallel_sum.c:42-46 | for r1 < r2, range r1 ends before range r2 starts |
| SumPartition.SizesBelowIsStart | shared/mpi_parallel_sum.c:38-48 | the local sizes of the ranks below k add up to start_idx(k), and all of them add up to total |
| SumPartition.Owner | shared/mpi_parallel_sum.c:42-46 | a closed-form owner function: every element index in [0, total) lies in some rank's range |
| SumPartition.OwnerUnique | shared/mpi_parallel_sum.c:42-46 | an index in rank r's range is in [0, total) and its owner is r, so the ranges cover [0, total) exactly once |
| SumPartition.LocalSum | shared/mpi_parallel_sum.c:77-79 | the loop reads only indices below local_size and returns the sum of the local array |
| SumPartition.ReducedSum | shared/mpi_parallel_sum.c:83 | when the local arrays are the ranges of one logical array, the local sums of all ranks add up to that array's sum |
| RangeSum.Wrap32 | shared/hello_mpi.c:25-26 | the 32-bit result of an `int` product lies in the `int` range, is congruent to the exact product modulo 2^32, and is the exact product when that fits |
| RangeSum.StartValAsWritten | shared/hello_mpi.c:25 | start_val as the source computes it, a 32-bit `int` product, lies in the `int` range and equals the intended rank * 1000000 up to rank 2147 |
| RangeSum.EndValAsWritten | shared/hello_mpi.c:26 | end_val as the source computes it lies in the `int` range and equals the intended (rank + 1) * 1000000 up to rank 2146 |
| RangeSum.StartVal | shared/hello_mpi.c:25 | the intended 64-bit start_val is a multiple of 1000000 whose quotient is the rank |
| RangeSum.EndVal | shared/hello_mpi.c:26 | the intended 64-bit end_val is the next rank's start_val, 1000000 past this rank's |
| RangeSum.RangesAdjacent | shared/hello_mpi.c:25-26 | every rank's range holds exactly 1000000 integers, and end_val(r) == start_val(r + 1) |
| RangeSum.AsWrittenRangeExact | shared/hello_mpi.c:25-26 | the source's 32-bit products give the intended range iff rank <= 2146 |
| RangeSum.SeriesClosedForm | shared/hello_mpi.c:30-32 | 2 * Σ_{i = lo}^{hi - 1} i == (hi - lo) * (lo + hi - 1) |
| RangeSum.SeriesSplit | shared/hello_mpi.c:30-38 | the sums over adjacent ranges [lo, mid) and [mid, hi) add up to the sum over [lo, hi) |
| RangeSum.SeriesMono | shared/hello_mpi.c:30-32 | on non-negative integers the running sum never decreases and stays non-negative |
| RangeSum.LocalRangeSum | shared/hello_mpi.c:24-32 | for rank < 9223372, local_sum fits in a `long long`, and after the loop local_sum == Σ_{i = start_val}^{end_val - 1} i == 1000000 * start_val + 499999500000 |
| RangeSum.LocalSumFitsInt64 | shared/hello_mpi.c:24-32 | for rank < 9223372, every value local_sum takes during the loop fits in a `long long` |
| RangeSum.GlobalSum | shared/hello_mpi.c:38 | the sum reduced at rank 0 over the 64-bit ranges is non-negative; GlobalSumIsSeries gives its closed form and GlobalSumFitsInt64 its `long long` bound |
| RangeSum.GlobalSumAsWritten | shared/hello_mpi.c:25-38 | the sum reduced at rank 0 over the source's 32-bit ranges; GlobalSumAsWrittenExact and GlobalSumAsWrittenDropsRank2147 state where it agrees with GlobalSum and where it does not |
| RangeSum.GlobalSumIsSeries | shared/hello_mpi.c:30-38 | with the reduction modelled as addition, the global sum is Σ_{i = 0}^{size * 1000000 - 1} i |
| RangeSum.GlobalSumFitsInt64 | shared/hello_mpi.c:38 | the reduced sum fits in a `long long` iff size <= 4294 |
| RangeSum.GlobalSumAsWrittenExact | shared/hello_mpi.c:25-38 | with at most 2147 ranks, the source's 32-bit ranges give the intended global sum |
| RangeSum.GlobalSumAsWrittenDropsRank2147 | shared/hello_mpi.c:25-26 | with 2148 ranks, rank 2147's end_val wraps to a negative number below its start_val, so its share is missing from the global sum |

## Findings

| source | as written | input that shows it | evidently intended | confidence | as-written member | corrected member |
|---|---|---|---|---|---|---|
| shared/hello_mpi.c:25-26 | `world_rank * 1000000` and `(world_rank + 1) * 1000000` multiply two `int`s. The range is formed in 32 bits and only then widened to `long long`. | 2148 ranks: rank 2147's end_val should be 2148000000, which is above INT_MAX. That is signed overflow, which is undefined behaviour; the usual wrap gives -2146967296, so rank 2147's loop adds nothing. | the range computed in 64 bits, e.g. `(long long)world_rank * 1000000`, so that every rank up to 4294 contributes correctly | high; not executed | RangeSum.GlobalSumAsWrittenDropsRank2147 | RangeSum.LocalRangeSum |
| examples/matrix_multiply_parallel.c:102-103 | `MPI_Scatterv` gets one-element compound-literal arrays for its send counts and displacements. They hold only the caller's own pair. `MPI_Gatherv` at lines 139-140 gets the same kind of arrays. | 2 ranks, n = 3000: the MPI standard has the root read one count and one displacement per rank. At the root both arrays have 1 entry, so entry 1 is read past the end. The entry that is there covers local_rows(0) * n = 4500000 of the 9000000 elements. | a table of `size` entries, built by evaluating the partition formula for every rank | high; not executed | Displacement.RootTableAsWrittenTooShort | Displacement.TableTiles |

The rest of the model uses the corrected forms:
- `Distributed.DistributedProduct` scatters and gathers with `Displacement.Table`.
- `RangeSum.LocalRangeSum` and `RangeSum.GlobalSum` use the 64-bit ranges `StartVal` and `EndVal`.

## Left out

- MPI runtime calls (`MPI_Init`, `MPI_Comm_rank`, `MPI_Comm_size`, `MPI_Barrier`, `MPI_Bcast`, `MPI_Abort`, `MPI_Get_processor_name`, `MPI_Finalize`) are interprocess communication and are not modelled. `MPI_Scatterv` and `MPI_Gatherv` are modelled only at the buffer level. `MPI_Reduce` is modelled as integer addition.
- The gather places the chunks one after another, in rank order. MPI fixes no order. With a tiling table the chunks are disjoint, so the order does not change the result.
- Floating point is not modelled. Elements are exact integers. This leaves out the rounding of `double` products and sums, and the summation-order differences the source accepts.
- `init_matrix` (`srand`/`rand`), `print_matrix`, every `printf`, `ctime`, and the GFLOPS figure are left out. They are random input, output, or floating point.
- Wall-clock timing (`MPI_Wtime`, `gettimeofday`) is left out: clocks are outside the model.
- `malloc`/`free` and the allocation-failure abort in `shared/mpi_parallel_sum.c` are foreign calls and are left out. The model keeps only the buffer lengths, for the index bounds.
- The iteration loop of `shared/mpi_parallel_sum.c` is left out, because it is floating-point arithmetic: the array initialisation, the normalisation `local_array[i] / (global_sum + 1.0)` and the final sum. Its loops run over the same indices `0 .. local_size - 1` as `SumPartition.LocalSum`.
- `SumPartition.LocalSum`: sums exact integers; the source adds `double`s.
- `RangeSum.LocalRangeSum`: requires rank < 9223372. From that rank on, the `long long` accumulator overflows, which C leaves undefined, so there is nothing to model.
- `Distributed.LocalResults`: every rank multiplies its block by the same B. In the source each rank builds its own copy of B: `init_matrix(B, matrix_size, 42)` at `examples/matrix_multiply_parallel.c:92` reseeds `srand` with 42 and fills B with `rand()` (lines 24-29). The copies are equal only because every rank uses the same seed and the same C library `rand()` sequence. The model takes that equality as given, so `Distributed.DistributedProductCorrect` assumes one shared B.
- `MatMul.MultiplyRows`: requires C to be a different array from local_A and B. The source allocates all three separately, so aliasing is not modelled.
- `MatMul.MatrixMultiply`: runs the same loop nest as the inline kernel, with local_rows = n. In the source, `matrix_multiply` is never called from `main`.
- C `int` width is not modelled for the matrix example. With MATRIX_SIZE = 3000, the largest index and count is 3000 * 3000 = 9000000, which fits in an `int`.
- `slurm-web-frontend/src/api/auth.js`, `slurm-web-frontend/src/stores/auth.js` and `slurm-web-frontend/src/router/index.js` are not part of this model. They are a browser HTTP client, a token store and a route table.
