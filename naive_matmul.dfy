/**
  The kernel of c/naive_matmul.c: the textbook product, reading the right
  operand down a column (`b[col + k*size]`), with `size_t` counters.
*/
module NaiveMatmul {
  import opened Layout
  import opened KernelSpec

  /**
    `matmul(out, a, b, size)`: each output cell is the sum over k of
    `a[k + row*size] * b[col + k*size]`, accumulated from 0 in increasing k
    and stored once its k loop has finished.
  */
  method Matmul(out: array<int>, a: array<int>, b: array<int>, size: nat)
    requires Cells(size) <= out.Length && Cells(size) <= a.Length && Cells(size) <= b.Length
    requires out != a && out != b
    modifies out
    ensures forall row: nat, col: nat | row < size && col < size ::
      At(out[..], size, row, col) == DotAccum(a[..], b[..], size, row, col, size)
    ensures forall k | Cells(size) <= k < out.Length :: out[k] == old(out[k])
  {
    ghost var A, B := a[..], b[..];
    var row := 0;
    while row < size
      invariant 0 <= row <= size
      invariant forall r: nat, c: nat | r < row && c < size ::
        At(out[..], size, r, c) == DotAccum(A, B, size, r, c, size)
      invariant forall k | Cells(size) <= k < out.Length :: out[k] == old(out[k])
    {
      var col := 0;
      while col < size
        invariant 0 <= col <= size
        invariant forall r: nat, c: nat | r < row && c < size ::
          At(out[..], size, r, c) == DotAccum(A, B, size, r, c, size)
        invariant forall c: nat | c < col ::
          At(out[..], size, row, c) == DotAccum(A, B, size, row, c, size)
        invariant forall k | Cells(size) <= k < out.Length :: out[k] == old(out[k])
      {
        TimesIsProduct(row, size);
        ghost var before := out[..];
        var s := 0;
        var k := 0;
        while k < size
          invariant 0 <= k <= size
          invariant out[..] == before
          invariant s == DotAccum(A, B, size, row, col, k)
        {
          IndexBound(size, row, k);
          IndexBound(size, k, col);
          TimesIsProduct(k, size);
          s := s + a[k + row * size] * b[col + k * size];
          k := k + 1;
        }
        IndexBound(size, row, col);
        out[col + row * size] := s;
        WriteCell(before, out[..], size, row, col, s);
        col := col + 1;
      }
      row := row + 1;
    }
  }
}
