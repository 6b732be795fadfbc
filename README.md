# Dense matrix multiplication: naive and cache-blocked kernels

This project models the two kernels of a small C repository that computes
C = A × B for dense row-major matrices. A is n×m, B is m×p and C is n×p, all stored
as flat buffers with element (r, c) of an nr×nc matrix at offset `r*nc + c` (the
`ROWMJR` macro).

- `S_matmult` (mm-simple.c) is a naive triple loop. It sums each cell in a local
  accumulator `cv` that starts at zero, then stores it once, so it overwrites C.
- `S_matmult_blk` (mm-block.c) splits the three loop ranges into tiles:
  - the rows of A into height `y`;
  - the columns of B into width `z`;
  - the shared dimension into width `x`.

  Tile ends are cut with `min`. For each tile it reads every cell of C, adds that
  tile's partial dot product and writes the cell back. C is therefore an
  accumulator across the tiles of the shared dimension. The driver zero-fills C
  (`calloc`), clamps the tile sizes to the dimensions and calls the kernel.

Matrix elements are mathematical integers (`int`), not IEEE doubles. Sums are
exact, so regrouping a sum does not change it. The buffers are Dafny arrays. The
kernels are methods that update C in place; A and B are only read.

Files:
- `layout.dfy` (module `Layout`):
  - the row-major layout and `min`;
  - the operands (`Factors`);
  - the reference dot product `Dot` and the reference product `Product`;
  - the lemmas relating the layout to cells.
- `block.dfy` (module `Block`): the blocked kernel, the driver's tile fix-up and
  argument order, and the tiling lemmas. Its four nested methods each hold one
  level of the source's loop nest, so each loop has its own invariant:
  - `MatMultBlk`: the row-tile loop.
  - `RowBand`: the column-tile loop.
  - `TileColumn`: the shared-tile loop.
  - `BlockDot`: the i/j/k loops inside one tile.

  The order of operations is exactly the source's. (`is` is a keyword in Dafny, so
  the row-tile start is called `ib`.)
- `simple.dfy` (module `Simple`): the naive kernel as written, and with its loop
  bounds corrected.
- `compare.dfy` (module `Compare`):
  - both programs' drivers;
  - the agreement of the naive and blocked kernels;
  - the independence of the result from the tile sizes;
  - concrete examples.

Each kernel is specified by the reference product. Each cell of the result is
`Dot(f, i, j, 0, m)`: Σ_{k<m} A(i,k)·B(k,j), summed with k ascending. The blocked
kernel's invariants use `Grown`:
- `Grown` says a buffer equals an earlier one, except that each cell of a
  rectangle of C has had a given range of dot-product terms added.
- Three composition lemmas combine two `Grown` steps, and each lemma mirrors one
  kind of tile step:
  - `GrownAlongShared`: consecutive shared-dimension tiles (this uses `DotSplit`).
  - `GrownBesideColumns`: adjacent column tiles.
  - `GrownBesideRows`: adjacent row tiles.

The model keeps two places where the source contradicts itself:
- In `S_matmult`, the loop commented `/* columns of B */` runs `j < m`
  (mm-simple.c:100). The loop commented `/* dot-product */` runs `k < p`
  (mm-simple.c:102). The layout macros make A n×m, B m×p and C n×p
  (mm-simple.c:42-44).
- The driver clamps `x` to `m` (mm-block.c:185). The kernel steps its
  shared-dimension loop by its parameter `x` (mm-block.c:113). Yet the call at
  mm-block.c:189 passes the driver's `y` into that slot, and its `x` into the
  row-tile slot.

The model keeps both as written and adds corrected versions (see "## Findings").

`TileOf`, `TilesPartition`, `TiledDot`, `TiledDotIsDot` and `TileWidthIrrelevant`
state the tiling arithmetic on its own terms:
- the tiles of a `+= t` loop cut by `min` partition the range;
- summing the shared-dimension tiles' partial dot products gives the whole dot
  product, whatever the tile width.

The kernel proofs do not call them. They reach the same facts through `Grown` and
`DotSplit`, one tile step at a time.

## Model

| member | source | states |
|---|---|---|
| Layout.RowMjr | mm-block.c:44-49 | the offset r·nc + c of an in-range cell lies inside the nr·nc buffer |
| Layout.Min | mm-block.c:51 | `min` gives the smaller of its two arguments: it is at most each and equal to one of them |
| Layout.RowMjrDecode | mm-simple.c:39 | an offset divided and reduced by nc gives back the row and the column |
| Layout.RowMjrOnto | mm-simple.c:39-44 | every offset below nr·nc is the offset of an in-range cell: the layout covers the whole buffer |
| Layout.RowMjrOthers | mm-block.c:44-49 | distinct cells have distinct offsets, so writing C(i, j) changes no other cell |
| Layout.Factors.A | mm-block.c:47 | the A(r, c) macro: element (i, k) of the n×m buffer A, read at ROWMJR(i, k, n, m) |
| Layout.Factors.B | mm-block.c:48 | the B(r, c) macro: element (k, j) of the m×p buffer B, read at ROWMJR(k, j, m, p) |
| Layout.Zeros | mm-block.c:180 | the buffer calloc returns for C: len cells, every one 0 |
| Layout.Dot | mm-simple.c:101-104 | the partial dot product Σ_{lo≤k<hi} A(i,k)·B(k,j), accumulated with k ascending, as `cv` does |
| Layout.DotSplit | mm-block.c:113-121 | cutting the k range into consecutive chunks leaves the dot product unchanged |
| Layout.Product | mm-simple.c:99-107 | the n×p buffer whose cell (i, j) is the whole dot product of row i of A and column j of B |
| Layout.ProductByCells | mm-block.c:49 | a buffer of n·p cells in which every cell (i, j) holds its dot product is the product |
| Layout.ProductLoopsInBounds | mm-block.c:115-121 | loops over i < n, j < p, k < m read A and B and write C only inside buffers of lengths n·m, m·p and n·p |
| Layout.ProductZeroRight | mm-simple.c:99-107 | A × 0 = 0: multiplying by the zero m×p matrix gives the zero n×p matrix, for all sizes |
| Layout.Identity | mm-simple.c:42-44 | the m×m identity in row-major layout: cell (k, j) is 1 when k = j and 0 otherwise |
| Layout.DotIdentityRight | mm-simple.c:101-104 | against the identity, the partial dot product over [0, hi) picks out A(i, j) when j < hi and is 0 otherwise |
| Layout.ProductIdentityRight | mm-simple.c:99-107 | A × I = A for every n×m matrix A |
| Block.StepsAdvance | mm-block.c:109-113 | the exact termination condition of the three tile loops: the row step y is positive when there are rows, the column step z when the column loop is entered, and the shared step x when the shared loop is entered |
| Block.TileOf | mm-block.c:113-114 | a k inside the tile [q·t, q·t + t) forces q = k / t |
| Block.TilesPartition | mm-block.c:109-114 | for a positive step t, each k < bound lies in exactly one visited tile [q·t, min(q·t + t, bound)), and that tile is non-empty and inside [0, bound) |
| Block.TiledDot | mm-block.c:113-121 | what the shared-dimension tiles ks, ks + x, … contribute to cell (i, j): each tile's partial dot product over [ks, min(ks + x, m)), one after the other |
| Block.TiledDotIsDot | mm-block.c:113-121 | adding the shared-dimension tiles' partial dot products one after the other gives the whole dot product |
| Block.TileWidthIrrelevant | mm-block.c:113-114 | any two positive shared-tile widths give the same cell sum, equal to the dot product |
| Block.GrownNothing | mm-block.c:109-113 | before a tile loop runs, nothing has been added |
| Block.GrownAlongShared | mm-block.c:113-121 | adding tile [lo, mid) and then tile [mid, hi) to the same cells adds [lo, hi): C accumulates across shared tiles |
| Block.GrownBesideColumns | mm-block.c:111-112 | finishing adjacent column tiles of one row band finishes their union |
| Block.GrownBesideRows | mm-block.c:109-110 | finishing adjacent row bands finishes their union |
| Block.MatMultBlk | mm-block.c:102-127 | for every i < n, j < p: new C(i, j) = old C(i, j) + Σ_{k<m} A(i,k)·B(k,j); A and B unchanged; only C modified; requires the tile steps to advance (the exact termination condition) |
| Block.RowBand | mm-block.c:111-125 | every cell of rows [ib, ie) gains its whole dot product; all other cells keep their values |
| Block.TileColumn | mm-block.c:113-124 | every cell of the tile [ib, ie)×[js, je) gains its whole dot product over all shared tiles; all other cells keep their values |
| Block.BlockDot | mm-block.c:115-123 | every cell of the tile gains its partial dot product over [ks, ke), read from C and written back; all other cells keep their values; every access is index-checked inside the buffers |
| Block.FixUp | mm-block.c:184-186 | each tile size becomes the smaller of itself and its dimension: it is the input when the input is in range and the dimension otherwise, at most both, and positive when input and dimension are positive |
| Block.AsWrittenStepsAdvance | mm-block.c:170-172 | for positive inputs, the clamped sizes passed as (y, x, z) let every kernel loop advance exactly when n = 0 or m > 0 |
| Block.AsWrittenStalls | mm-block.c:189 | n = 1, m = 0, p = 1 with default tiles: the kernel's row step is 0 while a row remains |
| Block.FixedUpStepsAdvance | mm-block.c:184-189 | passed as (x, y, z), the clamped sizes always let the kernel's loops advance |
| Block.BlockMainAsWritten | mm-block.c:180-189 | the driver as written: when it terminates (n = 0 or m > 0), C is exactly A × B; the swapped order changes only the grouping |
| Block.BlockMain | mm-block.c:180-189 | the corrected driver: for every positive tile triple, C is exactly A × B |
| Simple.AsWrittenInBoundsIff | mm-simple.c:99-105 | with bounds j < m, k < p, every access is inside the buffers if and only if n = 0, m = 0 or m = p |
| Simple.NonSquareOutOfBounds | mm-simple.c:100-105 | for a 1×3 A and a 3×1 B the loops as written write C offsets 1 and 2 of a one-cell C |
| Simple.MatMultAsWritten | mm-simple.c:93-108 | with the bounds as written, C(i, j) becomes its dot product for j < m, whatever it held before, and keeps its old value for j ≥ m; when m = p, C is A × B regardless of its prior contents |
| Simple.MatMult | mm-simple.c:93-108 | with j < p, k < m, every C(i, j) becomes its dot product, whatever C held before |
| Compare.SimpleMainAsWritten | mm-simple.c:133-138 | the naive program as written yields A × B on every size where it stays in bounds (m = p, or n = 0, or m = 0, where the untouched calloc zeros are the product) |
| Compare.SimpleMain | mm-simple.c:133-138 | the naive program with corrected bounds yields A × B |
| Compare.AsWrittenAgree | mm-simple.c:93-108 | both programs as written, for square B (and m > 0 unless n = 0), yield the same C, A × B, for every positive tile triple |
| Compare.DriverOrderIrrelevant | mm-block.c:189 | wherever the as-written blocked driver terminates, it yields the same C as the driver passing (x, y, z) |
| Compare.KernelsAgree | mm-block.c:102-127 | the corrected naive and blocked programs yield the same C, A × B, for all sizes and tile triples |
| Compare.BlockedFrom | mm-block.c:109-126 | running the blocked kernel on a buffer holding c0 leaves c0 + A × B, cell by cell |
| Compare.TilingIrrelevant | mm-block.c:109-114 | any two positive tile triples, and a single tile covering the matrix, give the same C from the same prior C |
| Compare.SquareExample | mm-simple.c:99-107 | [[1,2],[3,4]] × [[5,6],[7,8]] = [[19,22],[43,50]] |
| Compare.SquareExampleRuns | mm-block.c:189 | both programs as written yield [19, 22, 43, 50] on that example |
| Compare.RowTimesColumnExample | mm-simple.c:99-107 | [1,2,3] × [4,5,6]ᵀ = [32] |
| Compare.RowTimesColumn | mm-simple.c:100-102 | on that input, where the naive loops as written go out of bounds, both corrected programs yield [32] |
| Compare.EmptySharedDimension | mm-block.c:184-189 | with n = 1, m = 0, p = 1, where the as-written driver never finishes, the corrected driver yields [0]: the shared loop never runs, C keeps its calloc zeros, and these are A × 0 |

## Left out

- `S_matload` and `S_matsave` are left out: they read and write text files through `fopen`, `fscanf` and `fprintf`, which is I/O.
  - Consequence of leaving out the loader: the second `S_matload` call overwrites `m` with B's row count. The model has a single shared dimension m, so it assumes A's column count equals B's row count; the source does not check this.
- Option parsing (`getopt`, `atol`, `atoi`, the usage message), the `-t` thread count (parsed, never used) and `omp_get_wtime` timing are left out. These are libc glue and clock I/O.
- `malloc`, `calloc` and `free` are left out, and so is every `assert` that aborts the process:
  - C's zero-filling by `calloc` is modelled as a fresh array of zeros.
  - The `assert`s on positive tile sizes become preconditions.
- IEEE double arithmetic is not modelled. Elements are unbounded integers, so the claim that the naive and blocked kernels agree is exact here. With doubles, the two kernels sum partial products in different groupings and may differ in the last bits.
- `size_t` wrap-around in `n * m`, `is + y` and the other index computations is not modelled: sizes are unbounded naturals.
- Block.MatMultBlk requires `StepsAdvance`. A tile size of 0 in a loop that is entered makes the source loop forever, and a Dafny method must terminate.
- Simple.MatMultAsWritten requires `n == 0 || m == 0 || m == p`. By `Simple.AsWrittenInBoundsIff`, these are exactly the sizes for which the as-written loops stay inside the buffers. Outside them the C code's behaviour is undefined.
- Block.BlockMainAsWritten requires `n == 0 || 0 < m`. Otherwise the as-written driver does not terminate (see Findings).
- Threads are not modelled: the source runs the kernel on one thread.

## Findings

| source | as written | input that shows it | evidently intended | confidence | as-written member | corrected member |
|---|---|---|---|---|---|---|
| mm-simple.c:100-102 | `for (j = 0; j < m; ++j)` and `for (k = 0; k < p; ++k)`: j runs over the shared dimension and k over the columns of B | n = 1, m = 3, p = 1 (A = [1,2,3], B = [4,5,6]): the loops write C(0,1) and C(0,2), at offsets 1 and 2 of a one-cell C. With p > m they instead read A past its end. | `j < p` and `k < m`, giving C = [32] | high (layout algebra; not executed) | Simple.NonSquareOutOfBounds | Simple.MatMult |
| mm-block.c:189 | `S_matmult_blk(n, m, p, y, x, z, ...)` against the parameter order `(x, y, z)`: the kernel's row step is the clamped x, `min(x, m)` | n = 1, m = 0, p = 1 with default tiles: the row step is `min(1, 0) = 0`, so `is += y` never moves and the row loop never ends. This assumes `malloc(0)` returns a non-null pointer; otherwise the loader's assert aborts first. | pass `(x, y, z)`; the result is then the same for every positive tile triple | medium (depends on `malloc(0)` returning non-null; and section 6.8.5 paragraph 6 of the C11 standard lets a compiler assume this side-effect-free loop terminates, so a built binary need not hang; not executed) | Block.AsWrittenStalls | Block.BlockMain |
