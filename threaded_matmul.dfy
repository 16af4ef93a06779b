/**
  The kernels of c/threaded_matmul.c: an in-place `transpose` and a
  `matmul` that reads its right operand row-wise (`b[k + col*size]`),
  expecting it to have been transposed first. Loop counters are `size_t`,
  so they never overflow before reaching `size`. Buffers are arrays of
  integers standing for the C `float` buffers.
*/
module ThreadedMatmul {
  import opened Layout
  import opened TransposeSpec
  import opened KernelSpec

  /**
    `transpose(mat, size)`: for i < size and j < i, swap `mat[i + j*size]`
    with `mat[j + i*size]` through a temporary.
  */
  method Transpose(mat: array<int>, size: nat)
    requires Cells(size) <= mat.Length
    modifies mat
    ensures mat[..] == Transposed(old(mat[..]), size)
    ensures multiset(mat[..]) == multiset(old(mat[..]))
  {
    ghost var s := mat[..];
    var i := 0;
    while i < size
      invariant 0 <= i <= size
      invariant mat[..] == Rows(s, size, i)
    {
      TransposeRow(mat, size, i);
      i := i + 1;
    }
    RowsEnd(s, size);
    TransposedPermutation(s, size);
  }

  /**
    One pass of the outer loop of `transpose`: for j < i, swap
    `mat[i + j*size]` (offset `Index(size, j, i)`) with `mat[j + i*size]`
    (offset `Index(size, i, j)`) through a temporary.
  */
  method TransposeRow(mat: array<int>, size: nat, i: nat)
    requires Cells(size) <= mat.Length && i < size
    modifies mat
    ensures mat[..] == RowSwaps(old(mat[..]), size, i, i)
  {
    ghost var r := mat[..];
    var j := 0;
    while j < i
      invariant 0 <= j <= i
      invariant mat[..] == RowSwaps(r, size, i, j)
    {
      var x, y := Index(size, j, i), Index(size, i, j);
      IndexBound(size, j, i);
      IndexBound(size, i, j);
      ghost var before := mat[..];
      var tmp := mat[x];
      mat[x] := mat[y];
      mat[y] := tmp;
      RowSwapsStep(r, size, i, j, before, mat[..]);
      j := j + 1;
    }
  }

  /**
    `matmul(out, a, b, size)` as written: each output cell is the sum over k
    of `a[k + row*size] + b[k + col*size]`, accumulated from 0 in increasing k.
  */
  method Matmul(out: array<int>, a: array<int>, b: array<int>, size: nat)
    requires Cells(size) <= out.Length && Cells(size) <= a.Length && Cells(size) <= b.Length
    requires out != a && out != b
    modifies out
    ensures forall row: nat, col: nat | row < size && col < size ::
      At(out[..], size, row, col) == AddAccum(a[..], b[..], size, row, col, size)
    ensures forall k | Cells(size) <= k < out.Length :: out[k] == old(out[k])
  {
    ghost var A, B := a[..], b[..];
    var row := 0;
    while row < size
      invariant 0 <= row <= size
      invariant forall r: nat, c: nat | r < row && c < size ::
        At(out[..], size, r, c) == AddAccum(A, B, size, r, c, size)
      invariant forall k | Cells(size) <= k < out.Length :: out[k] == old(out[k])
    {
      var col := 0;
      while col < size
        invariant 0 <= col <= size
        invariant forall r: nat, c: nat | r < row && c < size ::
          At(out[..], size, r, c) == AddAccum(A, B, size, r, c, size)
        invariant forall c: nat | c < col ::
          At(out[..], size, row, c) == AddAccum(A, B, size, row, c, size)
        invariant forall k | Cells(size) <= k < out.Length :: out[k] == old(out[k])
      {
        TimesIsProduct(row, size);
        TimesIsProduct(col, size);
        ghost var before := out[..];
        var s := 0;
        var k := 0;
        while k < size
          invariant 0 <= k <= size
          invariant out[..] == before
          invariant s == AddAccum(A, B, size, row, col, k)
        {
          IndexBound(size, row, k);
          IndexBound(size, col, k);
          s := s + (a[k + row * size] + b[k + col * size]);
          k := k + 1;
        }
        IndexBound(size, row, col);
        out[col + row * size] := s;
        WriteCell(before, out[..], size, row, col, s);
        col := col + 1;
      }
      row := row + 1;
    }
  }

  /**
    The call order of `main`: `transpose(B, n)` then `matmul(C, A, B, n)`.
    Because B was transposed, the kernel's operand `B[k + col*n]` is the
    original `B[col + k*n]`, the element the naive kernel reads.
  */
  method TransposeThenMatmul(c: array<int>, a: array<int>, b: array<int>, n: nat)
    requires Cells(n) <= a.Length && Cells(n) <= b.Length && Cells(n) <= c.Length
    requires c != a && c != b && a != b
    modifies b, c
    ensures b[..] == Transposed(old(b[..]), n)
    ensures forall row: nat, col: nat | row < n && col < n ::
      At(c[..], n, row, col) == AddAccumByColumn(a[..], old(b[..]), n, row, col, n)
    ensures forall k | Cells(n) <= k < c.Length :: c[k] == old(c[k])
  {
    Transpose(b, n);
    Matmul(c, a, b, n);
    forall row: nat, col: nat | row < n && col < n
      ensures At(c[..], n, row, col) == AddAccumByColumn(a[..], old(b[..]), n, row, col, n)
    {
      AddAccumOfTransposed(a[..], old(b[..]), n, row, col, n);
    }
  }

  /**
    The kernel with the product the transposed layout is meant for:
    `s += a[k + row*size] * b[k + col*size]`.
  */
  method MatmulCorrected(out: array<int>, a: array<int>, b: array<int>, size: nat)
    requires Cells(size) <= out.Length && Cells(size) <= a.Length && Cells(size) <= b.Length
    requires out != a && out != b
    modifies out
    ensures forall row: nat, col: nat | row < size && col < size ::
      At(out[..], size, row, col) == DotAccumTransposed(a[..], b[..], size, row, col, size)
    ensures forall k | Cells(size) <= k < out.Length :: out[k] == old(out[k])
  {
    ghost var A, B := a[..], b[..];
    var row := 0;
    while row < size
      invariant 0 <= row <= size
      invariant forall r: nat, c: nat | r < row && c < size ::
        At(out[..], size, r, c) == DotAccumTransposed(A, B, size, r, c, size)
      invariant forall k | Cells(size) <= k < out.Length :: out[k] == old(out[k])
    {
      var col := 0;
      while col < size
        invariant 0 <= col <= size
        invariant forall r: nat, c: nat | r < row && c < size ::
          At(out[..], size, r, c) == DotAccumTransposed(A, B, size, r, c, size)
        invariant forall c: nat | c < col ::
          At(out[..], size, row, c) == DotAccumTransposed(A, B, size, row, c, size)
        invariant forall k | Cells(size) <= k < out.Length :: out[k] == old(out[k])
      {
        TimesIsProduct(row, size);
        TimesIsProduct(col, size);
        ghost var before := out[..];
        var s := 0;
        var k := 0;
        while k < size
          invariant 0 <= k <= size
          invariant out[..] == before
          invariant s == DotAccumTransposed(A, B, size, row, col, k)
        {
          IndexBound(size, row, k);
          IndexBound(size, col, k);
          s := s + a[k + row * size] * b[k + col * size];
          k := k + 1;
        }
        IndexBound(size, row, col);
        out[col + row * size] := s;
        WriteCell(before, out[..], size, row, col, s);
        col := col + 1;
      }
      row := row + 1;
    }
  }

  /** With the corrected kernel, transpose-then-multiply is the matrix product of the original A and B. */
  method TransposeThenMatmulCorrected(c: array<int>, a: array<int>, b: array<int>, n: nat)
    requires Cells(n) <= a.Length && Cells(n) <= b.Length && Cells(n) <= c.Length
    requires c != a && c != b && a != b
    modifies b, c
    ensures b[..] == Transposed(old(b[..]), n)
    ensures forall row: nat, col: nat | row < n && col < n ::
      At(c[..], n, row, col) == DotAccum(a[..], old(b[..]), n, row, col, n)
    ensures forall k | Cells(n) <= k < c.Length :: c[k] == old(c[k])
  {
    Transpose(b, n);
    MatmulCorrected(c, a, b, n);
    forall row: nat, col: nat | row < n && col < n
      ensures At(c[..], n, row, col) == DotAccum(a[..], old(b[..]), n, row, col, n)
    {
      DotAccumOfTransposed(a[..], old(b[..]), n, row, col, n);
    }
  }
}
