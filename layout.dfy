/**
  Row-major layout of a square matrix in a flat buffer.

  Every kernel stores an n×n matrix in a buffer whose first n*n entries hold
  the matrix: the cell in row `row` and column `col` lives at `col + row*n`.
  The lemmas here are the index arithmetic every kernel relies on: an index
  built from in-range coordinates is below n*n, and every index below n*n
  comes from exactly one pair of coordinates.

  Products and quotients are defined by repeated addition and subtraction,
  so that the reasoning about offsets stays linear; `TimesIsProduct` ties
  `Times` to `*` for the methods, which use the C expressions.
*/
module Layout {

  /** x * n, as x additions of n. */
  function Times(x: nat, n: nat): nat
  {
    if x == 0 then 0 else Times(x - 1, n) + n
  }

  lemma {:induction false} TimesIsProduct(x: nat, n: nat)
    ensures Times(x, n) == x * n
  {
    if x > 0 {
      TimesIsProduct(x - 1, n);
    }
  }

  lemma {:induction false} TimesMonotonic(x: nat, y: nat, n: nat)
    requires x <= y
    ensures Times(x, n) <= Times(y, n)
  {
    if x < y {
      TimesMonotonic(x, y - 1, n);
    }
  }

  /** The number of cells of an n×n matrix, n*n. */
  function Cells(n: nat): nat
  {
    Times(n, n)
  }

  /** Offset of cell (row, col) of an n×n row-major buffer: `col + row*n`. */
  function Index(n: nat, row: nat, col: nat): nat
  {
    col + Times(row, n)
  }

  /** `Index` is the C expression `col + row*n`. */
  lemma IndexIsOffset(n: nat, row: nat, col: nat)
    ensures Index(n, row, col) == col + row * n
  {
    TimesIsProduct(row, n);
  }

  /** The row of offset k: k / n. */
  function RowOf(n: nat, k: nat): nat
    requires n > 0
  {
    if k < n then 0 else RowOf(n, k - n) + 1
  }

  /** The column of offset k: k % n. */
  function ColOf(n: nat, k: nat): nat
    requires n > 0
  {
    if k < n then k else ColOf(n, k - n)
  }

  /** In-range coordinates address a cell below n*n. */
  lemma IndexBound(n: nat, row: nat, col: nat)
    requires row < n && col < n
    ensures Index(n, row, col) < Cells(n)
  {
    TimesMonotonic(row + 1, n, n);
  }

  /** Two pairs of in-range coordinates with the same offset are the same pair. */
  lemma IndexInjective(n: nat, row: nat, col: nat, row': nat, col': nat)
    requires row < n && col < n && row' < n && col' < n
    requires Index(n, row, col) == Index(n, row', col')
    ensures row == row' && col == col'
  {
    if row < row' {
      TimesMonotonic(row + 1, row', n);
    } else if row' < row {
      TimesMonotonic(row' + 1, row, n);
    }
  }

  /** k is the offset of row k / n, column k % n. */
  lemma {:induction false} DivMod(n: nat, k: nat)
    requires n > 0
    ensures ColOf(n, k) < n && Index(n, RowOf(n, k), ColOf(n, k)) == k
  {
    if k >= n {
      DivMod(n, k - n);
    }
  }

  /** Every offset below n*n is the offset of an in-range row and column. */
  lemma Decompose(n: nat, k: nat)
    requires k < Cells(n)
    ensures n > 0
    ensures RowOf(n, k) < n && ColOf(n, k) < n
    ensures Index(n, RowOf(n, k), ColOf(n, k)) == k
  {
    DivMod(n, k);
    if RowOf(n, k) >= n {
      TimesMonotonic(n, RowOf(n, k), n);
    }
  }

  /** The coordinates of an in-range cell are recovered from its offset. */
  lemma Compose(n: nat, row: nat, col: nat)
    requires row < n && col < n
    ensures Index(n, row, col) < Cells(n)
    ensures RowOf(n, Index(n, row, col)) == row && ColOf(n, Index(n, row, col)) == col
  {
    IndexBound(n, row, col);
    var k := Index(n, row, col);
    Decompose(n, k);
    IndexInjective(n, RowOf(n, k), ColOf(n, k), row, col);
  }

  /**
    The cell (row, col) of the n×n matrix held in the first n*n entries of s,
    the element the C code reads as `s[col + row*size]`.
  */
  function At(s: seq<int>, n: nat, row: nat, col: nat): int
    requires row < n && col < n && Cells(n) <= |s|
  {
    IndexBound(n, row, col);
    s[Index(n, row, col)]
  }

  /** Writing one cell changes that cell and no other cell of the matrix. */
  lemma AtUpdate(s: seq<int>, n: nat, row: nat, col: nat, v: int, r: nat, c: nat)
    requires row < n && col < n && r < n && c < n && Cells(n) <= |s|
    ensures Index(n, row, col) < |s|
    ensures At(s[Index(n, row, col) := v], n, r, c) == if r == row && c == col then v else At(s, n, r, c)
  {
    IndexBound(n, row, col);
    IndexBound(n, r, c);
    if Index(n, row, col) == Index(n, r, c) {
      IndexInjective(n, row, col, r, c);
    }
  }

  /**
    Writing v at the offset of (row, col): that cell now holds v, every other
    cell and every entry past the matrix keep their value.
  */
  lemma WriteCell(before: seq<int>, after: seq<int>, n: nat, row: nat, col: nat, v: int)
    requires row < n && col < n && Cells(n) <= |before|
    requires Index(n, row, col) < |before| && after == before[Index(n, row, col) := v]
    ensures At(after, n, row, col) == v
    ensures forall r: nat, c: nat | r < n && c < n && (r != row || c != col) ::
      At(after, n, r, c) == At(before, n, r, c)
    ensures forall k | Cells(n) <= k < |before| :: after[k] == before[k]
  {
    IndexBound(n, row, col);
    forall r: nat, c: nat | r < n && c < n
      ensures At(after, n, r, c) == if r == row && c == col then v else At(before, n, r, c)
    {
      AtUpdate(before, n, row, col, v, r, c);
    }
  }
}
