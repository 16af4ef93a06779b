/**
  The kernels of c/cache_matmul.c: the same `transpose` and additive
  `matmul` as c/threaded_matmul.c, but every loop counter is a signed
  32-bit C `int` compared against the `size_t` size. A counter never goes
  negative, so each comparison converts it to `size_t` without change. The
  counters are safe only while `size` is at most INT_MAX: past that, the
  increment from INT_MAX is a signed overflow. For such sizes the methods
  below satisfy the same specification functions as the `size_t` versions,
  so both files compute the same buffers.
*/
module CacheMatmul {
  import opened Layout
  import opened TransposeSpec
  import opened KernelSpec

  /** The C `int` of the loop counters. */
  newtype Int32 = x: int | -0x8000_0000 <= x < 0x8000_0000

  const IntMax: int := 0x7fff_ffff

  /** `transpose(mat, size)` with `int i, j`. */
  method Transpose(mat: array<int>, size: nat)
    requires size <= IntMax
    requires Cells(size) <= mat.Length
    modifies mat
    ensures mat[..] == Transposed(old(mat[..]), size)
    ensures multiset(mat[..]) == multiset(old(mat[..]))
  {
    ghost var s := mat[..];
    var i: Int32 := 0;
    while (i as int) < size
      invariant 0 <= i as int <= size
      invariant mat[..] == Rows(s, size, i as int)
    {
      TransposeRow(mat, size, i);
      i := i + 1;
    }
    RowsEnd(s, size);
    TransposedPermutation(s, size);
  }

  /** One pass of the outer loop of `transpose`, with `int j` counting up to `i`. */
  method TransposeRow(mat: array<int>, size: nat, i: Int32)
    requires Cells(size) <= mat.Length && 0 <= i as int < size
    modifies mat
    ensures mat[..] == RowSwaps(old(mat[..]), size, i as int, i as int)
  {
    ghost var r := mat[..];
    var j: Int32 := 0;
    while j < i
      invariant 0 <= j <= i
      invariant mat[..] == RowSwaps(r, size, i as int, j as int)
    {
      var x, y := Index(size, j as int, i as int), Index(size, i as int, j as int);
      IndexBound(size, j as int, i as int);
      IndexBound(size, i as int, j as int);
      ghost var before := mat[..];
      var tmp := mat[x];
      mat[x] := mat[y];
      mat[y] := tmp;
      RowSwapsStep(r, size, i as int, j as int, before, mat[..]);
      j := j + 1;
    }
  }

  /** `matmul(out, a, b, size)` with `int row, col, k`: the additive kernel, as written. */
  method Matmul(out: array<int>, a: array<int>, b: array<int>, size: nat)
    requires size <= IntMax
    requires Cells(size) <= out.Length && Cells(size) <= a.Length && Cells(size) <= b.Length
    requires out != a && out != b
    modifies out
    ensures forall row: nat, col: nat | row < size && col < size ::
      At(out[..], size, row, col) == AddAccum(a[..], b[..], size, row, col, size)
    ensures forall k | Cells(size) <= k < out.Length :: out[k] == old(out[k])
  {
    ghost var A, B := a[..], b[..];
    var row: Int32 := 0;
    while (row as int) < size
      invariant 0 <= row as int <= size
      invariant forall r: nat, c: nat | r < row as int && c < size ::
        At(out[..], size, r, c) == AddAccum(A, B, size, r, c, size)
      invariant forall k | Cells(size) <= k < out.Length :: out[k] == old(out[k])
    {
      ghost var current: nat := row as int;
      var col: Int32 := 0;
      while (col as int) < size
        invariant 0 <= col as int <= size
        invariant forall r: nat, c: nat | r < row as int && c < size ::
          At(out[..], size, r, c) == AddAccum(A, B, size, r, c, size)
        invariant forall c: nat | c < col as int ::
          At(out[..], size, current, c) == AddAccum(A, B, size, current, c, size)
        invariant forall k | Cells(size) <= k < out.Length :: out[k] == old(out[k])
      {
        TimesIsProduct(row as int, size);
        TimesIsProduct(col as int, size);
        ghost var before := out[..];
        var s := 0;
        var k: Int32 := 0;
        while (k as int) < size
          invariant 0 <= k as int <= size
          invariant out[..] == before
          invariant s == AddAccum(A, B, size, row as int, col as int, k as int)
        {
          IndexBound(size, row as int, k as int);
          IndexBound(size, col as int, k as int);
          s := s + (a[k as int + (row as int) * size] + b[k as int + (col as int) * size]);
          k := k + 1;
        }
        IndexBound(size, row as int, col as int);
        out[col as int + (row as int) * size] := s;
        WriteCell(before, out[..], size, row as int, col as int, s);
        col := col + 1;
      }
      row := row + 1;
    }
  }
}
