/**
  What the triple-loop `matmul` kernels compute for one output cell.

  Each kernel sets `s = 0` and then, for k = 0, 1, ..., size-1 in turn, adds
  one term to `s`; the accumulations below are written the same way, left
  to right, the term for k = m-1 added last. Elements are integers, so the
  sums are exact.

  - `AddAccum` is what the transposed-B kernels of threaded_matmul.c and
    cache_matmul.c accumulate: `a[k + row*size] + b[k + col*size]` (an
    addition, as written).
  - `DotAccum` is what the naive kernel accumulates:
    `a[k + row*size] * b[col + k*size]`, the matrix product.
  - `DotAccumTransposed` is the product term over a transposed right-hand
    buffer, `a[k + row*size] * b[k + col*size]`, the term the transposed-B
    kernels evidently meant to accumulate.
*/
module KernelSpec {
  import opened Layout
  import opened TransposeSpec

  /** Both operands hold an n×n matrix and (row, col) is one of its cells. */
  predicate CellOf(a: seq<int>, b: seq<int>, n: nat, row: nat, col: nat)
  {
    Cells(n) <= |a| && Cells(n) <= |b| && row < n && col < n
  }

  /** Sum over k < m of `a[k + row*n] + b[k + col*n]`. */
  function AddAccum(a: seq<int>, b: seq<int>, n: nat, row: nat, col: nat, m: nat): int
    requires CellOf(a, b, n, row, col) && m <= n
  {
    if m == 0 then 0
    else AddAccum(a, b, n, row, col, m - 1) + (At(a, n, row, m - 1) + At(b, n, col, m - 1))
  }

  /** Sum over k < m of `a[k + row*n] + b[col + k*n]`: the same additions with b read down a column. */
  function AddAccumByColumn(a: seq<int>, b: seq<int>, n: nat, row: nat, col: nat, m: nat): int
    requires CellOf(a, b, n, row, col) && m <= n
  {
    if m == 0 then 0
    else AddAccumByColumn(a, b, n, row, col, m - 1) + (At(a, n, row, m - 1) + At(b, n, m - 1, col))
  }

  /** Sum over k < m of `a[k + row*n] * b[col + k*n]`: row `row` of a times column `col` of b. */
  function DotAccum(a: seq<int>, b: seq<int>, n: nat, row: nat, col: nat, m: nat): int
    requires CellOf(a, b, n, row, col) && m <= n
  {
    if m == 0 then 0
    else DotAccum(a, b, n, row, col, m - 1) + At(a, n, row, m - 1) * At(b, n, m - 1, col)
  }

  /** Sum over k < m of `a[k + row*n] * b[k + col*n]`: row `row` of a times row `col` of b. */
  function DotAccumTransposed(a: seq<int>, b: seq<int>, n: nat, row: nat, col: nat, m: nat): int
    requires CellOf(a, b, n, row, col) && m <= n
  {
    if m == 0 then 0
    else DotAccumTransposed(a, b, n, row, col, m - 1) + At(a, n, row, m - 1) * At(b, n, col, m - 1)
  }

  /** Sum of the first m entries of row `row` of s. */
  function RowTotal(s: seq<int>, n: nat, row: nat, m: nat): int
    requires Cells(n) <= |s| && row < n && m <= n
  {
    if m == 0 then 0 else RowTotal(s, n, row, m - 1) + At(s, n, row, m - 1)
  }

  /** s holds the n×n identity matrix. */
  predicate IsIdentity(s: seq<int>, n: nat)
    requires Cells(n) <= |s|
  {
    forall r: nat, c: nat | r < n && c < n :: At(s, n, r, c) == if r == c then 1 else 0
  }

  /**
    What the additive kernels compute: the total of row `row` of a plus the
    total of row `col` of b, whatever the entries are.
  */
  lemma {:induction false} AddAccumSplits(a: seq<int>, b: seq<int>, n: nat, row: nat, col: nat, m: nat)
    requires CellOf(a, b, n, row, col) && m <= n
    ensures AddAccum(a, b, n, row, col, m) == RowTotal(a, n, row, m) + RowTotal(b, n, col, m)
  {
    if m > 0 {
      AddAccumSplits(a, b, n, row, col, m - 1);
    }
  }

  /**
    Reading `b[k + col*n]` after b has been transposed reads the original
    `b[col + k*n]`, the operand the naive kernel reads, for every k.
  */
  lemma {:induction false} AddAccumOfTransposed(a: seq<int>, b: seq<int>, n: nat, row: nat, col: nat, m: nat)
    requires CellOf(a, b, n, row, col) && m <= n
    ensures AddAccum(a, Transposed(b, n), n, row, col, m) == AddAccumByColumn(a, b, n, row, col, m)
  {
    if m > 0 {
      AddAccumOfTransposed(a, b, n, row, col, m - 1);
      TransposedAt(b, n, col, m - 1);
    }
  }

  /** The product over a transposed right operand is the product of the original operands. */
  lemma {:induction false} DotAccumOfTransposed(a: seq<int>, b: seq<int>, n: nat, row: nat, col: nat, m: nat)
    requires CellOf(a, b, n, row, col) && m <= n
    ensures DotAccumTransposed(a, Transposed(b, n), n, row, col, m) == DotAccum(a, b, n, row, col, m)
  {
    if m > 0 {
      DotAccumOfTransposed(a, b, n, row, col, m - 1);
      TransposedAt(b, n, col, m - 1);
    }
  }

  lemma {:induction false} DotAccumIdentityLeftPrefix(a: seq<int>, b: seq<int>, n: nat, row: nat, col: nat, m: nat)
    requires CellOf(a, b, n, row, col) && m <= n && IsIdentity(a, n)
    ensures DotAccum(a, b, n, row, col, m) == if row < m then At(b, n, row, col) else 0
  {
    if m > 0 {
      DotAccumIdentityLeftPrefix(a, b, n, row, col, m - 1);
      assert At(a, n, row, m - 1) == if row == m - 1 then 1 else 0;
    }
  }

  /** The identity times b is b. */
  lemma DotAccumIdentityLeft(a: seq<int>, b: seq<int>, n: nat, row: nat, col: nat)
    requires CellOf(a, b, n, row, col) && IsIdentity(a, n)
    ensures DotAccum(a, b, n, row, col, n) == At(b, n, row, col)
  {
    DotAccumIdentityLeftPrefix(a, b, n, row, col, n);
  }

  lemma {:induction false} DotAccumIdentityRightPrefix(a: seq<int>, b: seq<int>, n: nat, row: nat, col: nat, m: nat)
    requires CellOf(a, b, n, row, col) && m <= n && IsIdentity(b, n)
    ensures DotAccum(a, b, n, row, col, m) == if col < m then At(a, n, row, col) else 0
  {
    if m > 0 {
      DotAccumIdentityRightPrefix(a, b, n, row, col, m - 1);
      assert At(b, n, m - 1, col) == if m - 1 == col then 1 else 0;
    }
  }

  /** a times the identity is a. */
  lemma DotAccumIdentityRight(a: seq<int>, b: seq<int>, n: nat, row: nat, col: nat)
    requires CellOf(a, b, n, row, col) && IsIdentity(b, n)
    ensures DotAccum(a, b, n, row, col, n) == At(a, n, row, col)
  {
    DotAccumIdentityRightPrefix(a, b, n, row, col, n);
  }

  lemma {:induction false} RowTotalIdentityPrefix(s: seq<int>, n: nat, row: nat, m: nat)
    requires Cells(n) <= |s| && row < n && m <= n && IsIdentity(s, n)
    ensures RowTotal(s, n, row, m) == if row < m then 1 else 0
  {
    if m > 0 {
      RowTotalIdentityPrefix(s, n, row, m - 1);
      assert At(s, n, row, m - 1) == if row == m - 1 then 1 else 0;
    }
  }

  /**
    With the identity as left operand the additive kernels do not give back
    b: every cell of the result is 1 plus the total of a row of b.
  */
  lemma AddAccumIdentityLeft(a: seq<int>, b: seq<int>, n: nat, row: nat, col: nat)
    requires CellOf(a, b, n, row, col) && IsIdentity(a, n)
    ensures AddAccum(a, b, n, row, col, n) == 1 + RowTotal(b, n, col, n)
  {
    AddAccumSplits(a, b, n, row, col, n);
    RowTotalIdentityPrefix(a, n, row, n);
  }

  /** A 1×1 witness: identity [1] and b = [5] give 6 where the product is 5. */
  lemma AddAccumIsNotProduct()
    ensures IsIdentity([1], 1)
    ensures AddAccum([1], [5], 1, 0, 0, 1) == 6
    ensures DotAccum([1], [5], 1, 0, 0, 1) == 5 == At([5], 1, 0, 0)
  {
    assert At([1], 1, 0, 0) == 1;
    assert At([5], 1, 0, 0) == 5;
  }
}
