/**
 * The multiply kernels of examples/matrix_multiply_parallel.c over integer
 * elements: `matrix_multiply` (lines 12-21) and the row-block kernel written
 * inline in `main` (lines 116-123), which is the same loop nest run over the
 * local_rows rows a rank owns. Matrices are row-major buffers: entry (i, j)
 * of a matrix with n columns is element i * n + j.
 */
module MatMul {
  import opened Common
  import opened RowPartition

  /** Index safety: 0 <= i < rows and 0 <= j < n give a flat index below rows * n. */
  lemma CellIndexInRange(i: int, j: int, rows: int, n: int)
    requires 0 <= i < rows && 0 <= j < n
    ensures 0 <= i * n + j < rows * n
  {
    MulLe(0, i, n);
    MulLe(i + 1, rows, n);
  }

  /** Row i and column j are recovered from the flat index i * n + j. */
  lemma FlatIndexDivMod(i: int, j: int, n: int)
    requires 0 <= i && 0 <= j < n
    ensures (i * n + j) / n == i && (i * n + j) % n == j
  {
    var x := i * n + j;
    var q, r := x / n, x % n;
    assert x == q * n + r;
    MulAddDistrib(q - i, i, n);
    if q > i {
      MulLe(1, q - i, n);
      assert false;
    } else if q < i {
      MulLe(1, i - q, n);
      MulAddDistrib(i - q, q, n);
      assert false;
    }
  }

  /** Every flat index below rows * n splits into a row below rows and a column below n. */
  lemma FlatIndexBounds(x: int, rows: int, n: int)
    requires 0 <= n && 0 <= x < rows * n
    ensures 0 < n && 0 <= x / n < rows && 0 <= x % n < n
    ensures x == x / n * n + x % n
  {
    if n == 0 {
      assert false;
    }
    if x / n >= rows {
      MulLe(rows, x / n, n);
      assert false;
    }
  }

  /**
   * Σ_{t < k} A[row + t] * B[t * n + j]: the first k terms of the sum the
   * kernel accumulates into one result element, for the row of A that
   * starts at element `row` and column j of the n x n matrix B.
   */
  function Dot(A: seq<int>, row: int, B: seq<int>, j: int, n: int, k: int): int
    requires 0 <= row && 0 <= j < n && 0 <= k <= n && row + k <= |A| && |B| == n * n
  {
    if k == 0 then 0
    else
      CellIndexInRange(k - 1, j, n, n);
      Dot(A, row, B, j, n, k - 1) + A[row + k - 1] * B[(k - 1) * n + j]
  }

  /** Element x of the product of the rows x n matrix A and the n x n matrix B. */
  function ProductCell(A: seq<int>, B: seq<int>, n: int, rows: int, x: int): int
    requires 0 <= n && 0 <= x < rows * n && |A| == rows * n && |B| == n * n
  {
    FlatIndexBounds(x, rows, n);
    var i, j := x / n, x % n;
    MulLe(i + 1, rows, n);
    MulLe(0, i, n);
    Dot(A, i * n, B, j, n, n)
  }

  /** The rows x n product of A and B, row-major. */
  function Product(A: seq<int>, B: seq<int>, n: int, rows: int): (C: seq<int>)
    requires 0 <= n && 0 <= rows && |A| == rows * n && |B| == n * n
    ensures |C| == rows * n
  {
    MulLe(0, rows, n);
    seq(rows * n, x requires 0 <= x < rows * n => ProductCell(A, B, n, rows, x))
  }

  /** Entry (i, j) of the product is Σ_{k < n} A[i * n + k] * B[k * n + j]. */
  lemma ProductEntry(A: seq<int>, B: seq<int>, n: int, rows: int, i: int, j: int)
    requires 0 <= n && 0 <= rows && |A| == rows * n && |B| == n * n
    requires 0 <= i < rows && 0 <= j < n
    ensures 0 <= i * n + j < rows * n && i * n + n <= |A|
    ensures Product(A, B, n, rows)[i * n + j] == Dot(A, i * n, B, j, n, n)
  {
    CellIndexInRange(i, j, rows, n);
    MulLe(i + 1, rows, n);
    FlatIndexDivMod(i, j, n);
  }

  /**
   * The kernel at lines 116-123 (and, with local_rows == n, the body of
   * `matrix_multiply` at lines 12-21): each C[i * n + j] is zeroed and then
   * accumulates local_A[i * n + k] * B[k * n + j] for k = 0 .. n-1. Every
   * index stays below the buffer lengths allocated at lines 79-81.
   */
  method MultiplyRows(localA: array<int>, B: array<int>, C: array<int>, rows: int, n: int)
    requires 0 <= n && 0 <= rows
    requires localA.Length == rows * n && B.Length == n * n && C.Length == rows * n
    requires C != localA && C != B
    modifies C
    ensures C[..] == Product(localA[..], B[..], n, rows)
  {
    ghost var P := Product(localA[..], B[..], n, rows);
    MulLe(0, rows, n);
    for i := 0 to rows
      invariant i * n <= rows * n
      invariant forall x :: 0 <= x < i * n ==> C[x] == P[x]
    {
      MulLe(i + 1, rows, n);
      MulAddDistrib(i, 1, n);
      for j := 0 to n
        invariant forall x :: 0 <= x < i * n + j ==> C[x] == P[x]
      {
        CellIndexInRange(i, j, rows, n);
        C[i * n + j] := 0;
        for k := 0 to n
          invariant C[i * n + j] == Dot(localA[..], i * n, B[..], j, n, k)
          invariant forall x :: 0 <= x < i * n + j ==> C[x] == P[x]
        {
          CellIndexInRange(i, k, rows, n);
          CellIndexInRange(k, j, n, n);
          C[i * n + j] := C[i * n + j] + localA[i * n + k] * B[k * n + j];
        }
        ProductEntry(localA[..], B[..], n, rows, i, j);
      }
    }
    assert C[..] == P;
  }

  /** `matrix_multiply` (lines 12-21): the full n x n product. */
  method MatrixMultiply(A: array<int>, B: array<int>, C: array<int>, n: int)
    requires 0 <= n && A.Length == n * n && B.Length == n * n && C.Length == n * n
    requires C != A && C != B
    modifies C
    ensures C[..] == Product(A[..], B[..], n, n)
  {
    MultiplyRows(A, B, C, n, n);
  }

  /** A row of A copied into A' at another position gives the same dot products. */
  lemma {:induction false} DotShift(A: seq<int>, A': seq<int>, off: int, row: int, B: seq<int>, j: int, n: int, k: int)
    requires 0 <= off && 0 <= row && 0 <= j < n && 0 <= k <= n && |B| == n * n
    requires row + k <= |A'| && off + |A'| <= |A| && A' == A[off..off + |A'|]
    ensures Dot(A', row, B, j, n, k) == Dot(A, off + row, B, j, n, k)
  {
    if k > 0 {
      DotShift(A, A', off, row, B, j, n, k - 1);
    }
  }

  /** Rows [s, s + lr) of A are the elements [s * n, s * n + lr * n) of its buffer. */
  lemma RowBlockBounds(n: int, s: int, lr: int)
    requires 0 <= n && 0 <= s && 0 <= lr && s + lr <= n
    ensures 0 <= s * n <= s * n + lr * n <= n * n
    ensures s * n + lr * n == (s + lr) * n
  {
    MulLe(0, s, n);
    MulLe(0, lr, n);
    MulLe(s + lr, n, n);
    MulAddDistrib(s, lr, n);
  }

  /**
   * Element x of a product is the dot product of the row of A that starts
   * at element x - x % n with column x % n of B.
   */
  lemma ProductAt(A: seq<int>, B: seq<int>, n: int, rows: int, x: int)
    requires 0 <= n && 0 <= rows && |A| == rows * n && |B| == n * n && 0 <= x < rows * n
    ensures 0 < n && 0 <= x % n < n && 0 <= x - x % n && x - x % n + n <= |A|
    ensures Product(A, B, n, rows)[x] == Dot(A, x - x % n, B, x % n, n, n)
  {
    FlatIndexBounds(x, rows, n);
    MulLe(x / n + 1, rows, n);
  }

  /** Moving a flat index down by s whole rows keeps its column. */
  lemma ModShift(s: int, x: int, n: int)
    requires 0 < n && 0 <= s && 0 <= x
    ensures (s * n + x) % n == x % n
  {
    assert x == x / n * n + x % n;
    MulAddDistrib(s, x / n, n);
    FlatIndexDivMod(s + x / n, x % n, n);
  }

  /** Element x of the block product is element s * n + x of the full product. */
  lemma ProductRowBlockAt(A: seq<int>, B: seq<int>, n: int, s: int, lr: int, x: int)
    requires 0 <= n && 0 <= s && 0 <= lr && s + lr <= n && |A| == n * n && |B| == n * n
    requires 0 <= x < lr * n
    ensures 0 <= s * n <= s * n + lr * n <= n * n
    ensures Product(A[s * n..s * n + lr * n], B, n, lr)[x] == Product(A, B, n, n)[s * n + x]
  {
    RowBlockBounds(n, s, lr);
    var A' := A[s * n..s * n + lr * n];
    ProductAt(A', B, n, lr, x);
    ProductAt(A, B, n, n, s * n + x);
    ModShift(s, x, n);
    DotShift(A, A', s * n, x - x % n, B, x % n, n, n);
  }

  /**
   * Multiplying the row block [s, s + lr) of A by B yields exactly rows
   * s .. s + lr - 1 of the full product.
   */
  lemma ProductRowBlock(A: seq<int>, B: seq<int>, n: int, s: int, lr: int)
    requires 0 <= n && 0 <= s && 0 <= lr && s + lr <= n && |A| == n * n && |B| == n * n
    ensures 0 <= s * n <= s * n + lr * n <= n * n
    ensures Product(A[s * n..s * n + lr * n], B, n, lr) == Product(A, B, n, n)[s * n..s * n + lr * n]
  {
    RowBlockBounds(n, s, lr);
    var L := Product(A[s * n..s * n + lr * n], B, n, lr);
    var R := Product(A, B, n, n)[s * n..s * n + lr * n];
    forall x | 0 <= x < lr * n
      ensures L[x] == R[x]
    {
      ProductRowBlockAt(A, B, n, s, lr, x);
    }
  }
}
