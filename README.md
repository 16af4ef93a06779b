# Square-matrix kernels of big-data-matrix-mul, in Dafny

The repository benchmarks dense square matrix multiplication. Its plain-C
reference code stores an n×n matrix as a flat row-major buffer: cell
(row, col) is at offset `col + row*size`. The C code has two operations:

- `transpose(mat, size)` transposes the matrix in place. For every i and
  every j < i, it swaps `mat[i + j*size]` with `mat[j + i*size]` through a
  temporary.
- `matmul(out, a, b, size)` runs three nested loops (row, col, k). For each
  cell it sets an accumulator `s` to 0, adds one term per k in increasing
  order, and stores `s` into `out[col + row*size]`. There are two kinds of
  kernel:
  - The naive kernel (c/naive_matmul.c) adds `a[k + row*size] * b[col + k*size]`.
  - The transposed-B kernels (c/threaded_matmul.c, c/cache_matmul.c) read
    `b[k + col*size]`. `main` calls `transpose(B, n)` before `matmul(C, A, B, n)`.
    These kernels add `a[...] + b[...]`, not the product. The model keeps
    that addition as written (see Findings).

The project has six modules, one file each:

- `Layout` (layout.dfy): the offset `Index(n, row, col) = col + row*n` and
  the cell accessor `At`. Its lemmas cover the index arithmetic: bounds,
  injectivity, decomposition into row and column, and updating one cell.
  The product `row*n` is defined as repeated addition (`Times`) and the
  number of cells n*n as `Cells(n)`. `TimesIsProduct` proves that `Times`
  equals `*`, and the methods use it to match the C expressions.
- `TransposeSpec` (transpose_spec.dfy): `Transposed`, the buffer that
  `transpose` leaves behind. `Rows` and `RowSwaps` build the buffer at
  every point of the two loops, one swap per inner pass, in loop order.
  `PartlyTransposedAt` describes the same buffer entry by entry: a cell the
  loops have visited holds its mirror's original entry. The lemmas prove
  that the two descriptions agree and that the loops end with the
  transpose. They also prove the result cell by cell, that the diagonal
  and the tail are untouched, the involution, and that the multiset of
  entries is kept.
- `KernelSpec` (kernel_spec.dfy): the left-to-right accumulation of each
  kernel for one output cell, and lemmas about them:
  - what the additive kernel really computes;
  - the transpose-then-read relation;
  - the identity laws of the product.
- `ThreadedMatmul`, `CacheMatmul`, `NaiveMatmul`: one module per C file.
  Each holds imperative methods over `array<int>` with the source's loops,
  proved against the functions above. `CacheMatmul` uses 32-bit loop
  counters, as its source does. The inner loop of `transpose` is a method
  of its own, `TransposeRow`, called once per pass of the outer loop. It
  indexes with `Index(size, row, col)`; `IndexIsOffset` proves that this is
  the C offset `col + row*size`.

Elements are mathematical integers standing for the C `float`s, so every sum
is exact.

The repository's design description is about a GPU matrix type
(host/device copies, dirty states, multiply dispatch). The Rust source
that implements that type is not part of this model; only the C kernels
are modelled, and where the two differ the model follows the C code.

## Model

| member | source | states |
|---|---|---|
| `Layout.IndexBound` | c/naive_matmul.c:14-16 | every offset `col + row*size` with row, col < size is below size*size, so buffers of length size*size cover every read and write |
| `Layout.IndexInjective` | c/naive_matmul.c:16 | two different cells never share an offset |
| `Layout.IndexIsOffset` | c/threaded_matmul.c:16-18 | the offset `Index(size, row, col)` the model indexes with is the C expression `col + row*size` |
| `Layout.WriteCell` | c/naive_matmul.c:16 | storing into `out[col + row*size]` sets that cell and leaves every other cell and every entry past size*size as it was |
| `TransposeSpec.RowSwapsStep` | c/threaded_matmul.c:16-18 | exchanging the entries at `i + j*size` and `j + i*size` through a temporary turns the buffer after j inner passes into the buffer after j + 1 passes |
| `TransposeSpec.PartlyTransposedStep` | c/threaded_matmul.c:14-19 | one inner pass exchanges the entries at the two distinct offsets `i + j*size` and `j + i*size` and moves no other entry |
| `TransposeSpec.PartlyTransposedRowDone` | c/threaded_matmul.c:14 | when `j` reaches `i` the row is done; the diagonal cell (i, i) is never moved |
| `TransposeSpec.PartlyTransposedEnd` | c/threaded_matmul.c:12 | when `i` reaches size every cell has been exchanged with its mirror: the buffer is the transpose |
| `TransposeSpec.RowSwapsAt` | c/threaded_matmul.c:14-19 | after j inner passes of outer pass i, the cells of the leading i×i block and the first j cells of row i and of column i hold their mirror's original entry; every other entry is unchanged |
| `TransposeSpec.RowsAt` | c/threaded_matmul.c:12-20 | after i outer passes exactly the leading i×i block is transposed and every other entry is unchanged |
| `TransposeSpec.RowsEnd` | c/threaded_matmul.c:10-21 | the swaps of the whole loop nest produce the transpose |
| `TransposeSpec.RowSwapsPermutation` | c/threaded_matmul.c:14-19 | the inner loop only swaps: it keeps the multiset of entries |
| `TransposeSpec.RowsPermutation` | c/threaded_matmul.c:12-20 | every buffer between outer passes has the multiset of entries of the input |
| `TransposeSpec.TransposedPermutation` | c/threaded_matmul.c:10-21 | `transpose` only swaps: the whole buffer keeps its multiset of entries |
| `TransposeSpec.TransposedAt` | c/threaded_matmul.c:10-21 | after `transpose`, cell (row, col) holds the old cell (col, row), for all row, col < size |
| `TransposeSpec.TransposedDiagonal` | c/cache_matmul.c:8 | diagonal cells `mat[i + i*size]` keep their value |
| `TransposeSpec.TransposedBeyondMatrix` | c/cache_matmul.c:6-8 | entries at index size*size and beyond are not touched |
| `TransposeSpec.TransposedInvolution` | c/cache_matmul.c:10-12 | transposing twice restores the original buffer |
| `KernelSpec.AddAccumSplits` | c/threaded_matmul.c:29-34 | the additive kernel's cell is the total of row `row` of a plus the total of row `col` of b |
| `KernelSpec.AddAccumOfTransposed` | c/threaded_matmul.c:63-64 | after `transpose(B)`, the kernel's operand `B[k + col*n]` is the original `B[col + k*n]` for every k, the element the naive kernel reads |
| `KernelSpec.DotAccumOfTransposed` | c/naive_matmul.c:14 | the row-by-row product over a transposed B equals the naive row-by-column product over the original B |
| `KernelSpec.DotAccumIdentityLeft` | c/naive_matmul.c:14 | if a is the identity, the naive product cell (row, col) is b's cell (row, col) |
| `KernelSpec.DotAccumIdentityRight` | c/naive_matmul.c:14 | if b is the identity, the naive product cell (row, col) is a's cell (row, col) |
| `KernelSpec.AddAccumIdentityLeft` | c/threaded_matmul.c:32 | with the identity as a, the additive kernel gives 1 plus the total of a row of b, not b |
| `KernelSpec.AddAccumIsNotProduct` | c/cache_matmul.c:26 | for size 1, a = [1], b = [5], the additive kernel yields 6 where the product is 5 |
| `ThreadedMatmul.Transpose` | c/threaded_matmul.c:10-21 | the array becomes `Transposed` of its old contents and keeps its multiset of entries |
| `ThreadedMatmul.TransposeRow` | c/threaded_matmul.c:14-19 | the inner loop of pass i leaves the buffer after all i swaps of that pass, `RowSwaps(old, size, i, i)` |
| `ThreadedMatmul.Matmul` | c/threaded_matmul.c:23-37 | every out cell (row, col) is the sum, from 0 and in increasing k, of `a[k + row*size] + b[k + col*size]`; entries past size*size are kept; only `out` is written |
| `ThreadedMatmul.TransposeThenMatmul` | c/threaded_matmul.c:63-64 | B becomes its transpose, and C's cell (row, col) is the sum over k of `A[k + row*n] + B[col + k*n]` with the original B |
| `ThreadedMatmul.MatmulCorrected` | c/threaded_matmul.c:32 | the corrected kernel: every out cell is the sum of `a[k + row*size] * b[k + col*size]` |
| `ThreadedMatmul.TransposeThenMatmulCorrected` | c/threaded_matmul.c:63-64 | with the corrected kernel, transpose-then-multiply leaves in C exactly the naive product of the original A and B |
| `CacheMatmul.Transpose` | c/cache_matmul.c:4-15 | with 32-bit `int` counters and size <= INT_MAX, the same result as the `size_t` version: the transpose, a permutation of the input |
| `CacheMatmul.TransposeRow` | c/cache_matmul.c:8-13 | with an `int j` counting up to `i`, the same buffer as the `size_t` inner loop |
| `CacheMatmul.Matmul` | c/cache_matmul.c:17-31 | with 32-bit `int` counters and size <= INT_MAX, the same cells as the `size_t` version: the additive sum for every cell, the rest of `out` kept |
| `NaiveMatmul.Matmul` | c/naive_matmul.c:5-19 | every out cell (row, col) is the sum, from 0 and in increasing k, of `a[k + row*size] * b[col + k*size]`; entries past size*size are kept, so for size 0 nothing is written |

## Left out

- The Rust GPU program is not part of this model. This covers device and queue acquisition, the query set and shader compilation in rust/matmul-wgpu/src/gpu.rs. It also covers the host/device `Matrix` type, its dirty states, `move_to_gpu` and the GPU multiply that rust/matmul-wgpu/src/main.rs uses. The source of that type is not part of this model.
- The C `main` functions: `malloc`, `rand()/RAND_MAX` initialisation, timing through c/stopwatch.h, `printf` and the `asm volatile` barrier. The unused `pthread` include and `struct job` are left out too. Only the call order `transpose(B, n)` then `matmul(C, A, B, n)` is modelled.
- Floating point: elements are integers, so rounding of the `float` accumulations is not modelled. The order of accumulation (from 0, increasing k) is kept in the definitions.
- `size_t` wrap-around of the offsets `k + row*size` is not modelled. Every offset is below size*size, which is at most the length of a buffer the program could allocate.
- ThreadedMatmul.Matmul: requires `out` to be distinct from `a` and `b`. The C function would also run on overlapping buffers, but every caller passes three separate allocations.
- CacheMatmul.Matmul: requires `out` to be distinct from `a` and `b`, for the same reason.
- NaiveMatmul.Matmul: requires `out` to be distinct from `a` and `b`, for the same reason. Its contract gives the final buffer, not the order of the stores: that each cell is stored exactly once is not stated.
- ThreadedMatmul.TransposeThenMatmul: requires A, B and C to be three distinct buffers, as the three `malloc` calls of `main` are.
- CacheMatmul.Transpose: requires size <= INT_MAX. With a larger size the `int` counter overflows, which is undefined behaviour in C.

## Findings

| source | as written | input that shows it | evidently intended | confidence | as-written member | corrected member |
|---|---|---|---|---|---|---|
| c/threaded_matmul.c:32 | `s += a[k + row*size] + b[k + col*size]` adds the two operands | size 1, a = [1] (the identity), b = [5]: out = [6], but the product is [5] | `s += a[k + row*size] * b[k + col*size]`, so that transpose-then-matmul gives the naive product | high; not executed | `ThreadedMatmul.Matmul`, `KernelSpec.AddAccumIsNotProduct` | `ThreadedMatmul.MatmulCorrected`, `ThreadedMatmul.TransposeThenMatmulCorrected` |
| c/cache_matmul.c:26 | the same addition, with `int` counters | the same input: out = [6] for the product [5]; for any size with a = identity each cell is 1 plus a row total of b | the same multiplication | high; not executed | `CacheMatmul.Matmul`, `KernelSpec.AddAccumIdentityLeft` | `ThreadedMatmul.MatmulCorrected` (the kernels differ only in counter type) |
