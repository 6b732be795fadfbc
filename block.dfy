/** The cache-blocked program (mm-block.c): the tiled kernel S_matmult_blk, which
    adds A * B into C, and the part of its driver that clamps the tile sizes and
    passes them to the kernel. */
module Block {
  import opened Layout

  /** Tile sizes as the command line names them: x along the shared dimension,
      y along the rows of A, z along the columns of B. */
  datatype Tiles = Tiles(x: nat, y: nat, z: nat)

  /** The kernel's three tile loops (`is += y`, `js += z`, `ks += x`) move
      forward whenever they are entered: exactly the condition under which the
      kernel terminates. */
  predicate StepsAdvance(n: nat, m: nat, p: nat, x: nat, y: nat, z: nat)
  {
    && (0 < n ==> 0 < y)
    && (0 < n && 0 < p ==> 0 < z)
    && (0 < n && 0 < p && 0 < m ==> 0 < x)
  }

  /** Start of the q-th tile of width t along one dimension. */
  function TileStart(q: nat, t: nat): (s: nat)
  {
    q * t
  }

  /** k lies in the tile [q * t, q * t + t) only for q = k / t. */
  lemma TileOf(k: nat, t: nat, q: nat)
    requires 0 < t && TileStart(q, t) <= k < TileStart(q, t) + t
    ensures q == k / t
  {
    var q0, r := k / t, k % t;
    assert k == q0 * t + r && r < t;
    if q < q0 {
      MulMono(q + 1, q0, t);
      assert false;
    } else if q0 < q {
      MulMono(q0 + 1, q, t);
      assert false;
    }
  }

  /** The tiles [q * t, min(q * t + t, bound)) visited by a loop `s += t` that runs
      while s < bound partition [0, bound): k lies in tile q exactly when q is
      k / t, and that tile is non-empty and is visited by the loop. */
  lemma TilesPartition(k: nat, t: nat, bound: nat)
    requires 0 < t && k < bound
    ensures forall q: nat {:trigger TileStart(q, t)} ::
      TileStart(q, t) <= k < Min(TileStart(q, t) + t, bound) <==> q == k / t
    ensures TileStart(k / t, t) < Min(TileStart(k / t, t) + t, bound) <= bound
  {
    var q0 := k / t;
    assert k == q0 * t + k % t;
    assert TileStart(q0, t) <= k < TileStart(q0, t) + t;
    forall q: nat | TileStart(q, t) <= k < Min(TileStart(q, t) + t, bound)
      ensures q == q0
    {
      TileOf(k, t, q);
    }
  }

  /** What the shared-dimension tiles ks, ks + x, ks + 2x, ... contribute to cell
      (i, j), one tile's partial dot product after the other (mm-block.c:113-121). */
  function TiledDot(f: Factors, i: nat, j: nat, ks: nat, x: nat): (s: int)
    requires f.Valid() && i < f.n && j < f.p && 0 < x
    decreases f.m - ks
  {
    if f.m <= ks then 0
    else Dot(f, i, j, ks, Min(ks + x, f.m)) + TiledDot(f, i, j, ks + x, x)
  }

  /** Summing the tiles' partial dot products gives the whole dot product from ks on. */
  lemma {:induction false} TiledDotIsDot(f: Factors, i: nat, j: nat, ks: nat, x: nat)
    requires f.Valid() && i < f.n && j < f.p && 0 < x && ks <= f.m
    ensures TiledDot(f, i, j, ks, x) == Dot(f, i, j, ks, f.m)
    decreases f.m - ks
  {
    if ks < f.m {
      var ke := Min(ks + x, f.m);
      if ks + x <= f.m {
        TiledDotIsDot(f, i, j, ks + x, x);
      }
      DotSplit(f, i, j, ks, ke, f.m);
    }
  }

  /** The tile width along the shared dimension does not change a cell's sum. */
  lemma TileWidthIrrelevant(f: Factors, i: nat, j: nat, x1: nat, x2: nat)
    requires f.Valid() && i < f.n && j < f.p && 0 < x1 && 0 < x2
    ensures TiledDot(f, i, j, 0, x1) == TiledDot(f, i, j, 0, x2) == Dot(f, i, j, 0, f.m)
  {
    TiledDotIsDot(f, i, j, 0, x1);
    TiledDotIsDot(f, i, j, 0, x2);
  }

  /** c is c0 with, added to every cell (r, s) of the rectangle [r0, r1) x [s0, s1),
      the terms lo <= k < hi of its dot product; every other cell is as in c0. */
  ghost predicate Grown(c: seq<int>, c0: seq<int>, f: Factors, r0: nat, r1: nat, s0: nat, s1: nat,
                        lo: nat, hi: nat)
    requires f.Valid() && |c| == |c0| == f.n * f.p && hi <= f.m
  {
    forall r: nat, s: nat {:trigger RowMjr(r, s, f.n, f.p)} :: r < f.n && s < f.p ==>
      c[RowMjr(r, s, f.n, f.p)] == c0[RowMjr(r, s, f.n, f.p)]
        + if r0 <= r < r1 && s0 <= s < s1 then Dot(f, r, s, lo, hi) else 0
  }

  /** Nothing added yet: an empty rectangle, or an empty range of terms. */
  lemma GrownNothing(c0: seq<int>, f: Factors, r0: nat, r1: nat, s0: nat, s1: nat, lo: nat, hi: nat)
    requires f.Valid() && |c0| == f.n * f.p && hi <= f.m
    requires r1 <= r0 || s1 <= s0 || hi <= lo
    ensures Grown(c0, c0, f, r0, r1, s0, s1, lo, hi)
  {
    forall r: nat, s: nat | r < f.n && s < f.p && r0 <= r < r1 && s0 <= s < s1
      ensures Dot(f, r, s, lo, hi) == 0
    {
    }
  }

  /** Adding the terms [lo, mid) and then the terms [mid, hi) to the same cells adds
      the terms [lo, hi): one shared-dimension tile after the other. */
  lemma {:induction false} GrownAlongShared(c2: seq<int>, c1: seq<int>, c0: seq<int>, f: Factors,
                                            r0: nat, r1: nat, s0: nat, s1: nat, lo: nat, mid: nat, hi: nat)
    requires f.Valid() && |c2| == |c1| == |c0| == f.n * f.p && lo <= mid <= hi <= f.m
    requires Grown(c1, c0, f, r0, r1, s0, s1, lo, mid)
    requires Grown(c2, c1, f, r0, r1, s0, s1, mid, hi)
    ensures Grown(c2, c0, f, r0, r1, s0, s1, lo, hi)
  {
    forall r: nat, s: nat | r < f.n && s < f.p && r0 <= r < r1 && s0 <= s < s1
      ensures Dot(f, r, s, lo, hi) == Dot(f, r, s, lo, mid) + Dot(f, r, s, mid, hi)
    {
      DotSplit(f, r, s, lo, mid, hi);
    }
  }

  /** Growing columns [s0, s1) and then the adjacent columns [s1, s2) of the same
      rows grows columns [s0, s2). */
  lemma GrownBesideColumns(c2: seq<int>, c1: seq<int>, c0: seq<int>, f: Factors,
                           r0: nat, r1: nat, s0: nat, s1: nat, s2: nat, lo: nat, hi: nat)
    requires f.Valid() && |c2| == |c1| == |c0| == f.n * f.p && s0 <= s1 <= s2 && hi <= f.m
    requires Grown(c1, c0, f, r0, r1, s0, s1, lo, hi)
    requires Grown(c2, c1, f, r0, r1, s1, s2, lo, hi)
    ensures Grown(c2, c0, f, r0, r1, s0, s2, lo, hi)
  {
  }

  /** Growing rows [r0, r1) and then the adjacent rows [r1, r2) over the same
      columns grows rows [r0, r2). */
  lemma GrownBesideRows(c2: seq<int>, c1: seq<int>, c0: seq<int>, f: Factors,
                        r0: nat, r1: nat, r2: nat, s0: nat, s1: nat, lo: nat, hi: nat)
    requires f.Valid() && |c2| == |c1| == |c0| == f.n * f.p && r0 <= r1 <= r2 && hi <= f.m
    requires Grown(c1, c0, f, r0, r1, s0, s1, lo, hi)
    requires Grown(c2, c1, f, r1, r2, s0, s1, lo, hi)
    ensures Grown(c2, c0, f, r0, r2, s0, s1, lo, hi)
  {
  }

  /** S_matmult_blk (mm-block.c:102-127): C += A * B. The row-tile loop
      (mm-block.c:109-110, with `is` called ib, `is` being a Dafny keyword); the
      column-tile, shared-tile and in-tile loops nested in it are RowBand,
      TileColumn and BlockDot below. A, B and C are distinct buffers (the restrict
      qualifiers). */
  method MatMultBlk(n: nat, m: nat, p: nat, x: nat, y: nat, z: nat,
                    A: array<int>, B: array<int>, C: array<int>)
    requires A.Length == n * m && B.Length == m * p && C.Length == n * p
    requires C != A && C != B
    requires StepsAdvance(n, m, p, x, y, z)
    modifies C
    ensures unchanged(A) && unchanged(B)
    ensures forall i: nat, j: nat {:trigger RowMjr(i, j, n, p)} :: i < n && j < p ==>
      C[RowMjr(i, j, n, p)] == old(C[RowMjr(i, j, n, p)]) + Dot(Factors(n, m, p, A[..], B[..]), i, j, 0, m)
  {
    ghost var f := Factors(n, m, p, A[..], B[..]);
    ghost var c0 := C[..];
    GrownNothing(c0, f, 0, 0, 0, p, 0, m);
    var ib := 0;
    while ib < n
      invariant Grown(C[..], c0, f, 0, Min(ib, n), 0, p, 0, m)
      decreases n - ib
    {
      var ie := Min(ib + y, n);
      ghost var c1 := C[..];
      RowBand(n, m, p, x, z, ib, ie, A, B, C);
      GrownBesideRows(C[..], c1, c0, f, 0, ib, ie, 0, p, 0, m);
      ib := ib + y;
    }
  }

  /** The column-tile loop (mm-block.c:111-112) for the rows [ib, ie): every cell
      of those rows gets its whole dot product added. */
  method RowBand(n: nat, m: nat, p: nat, x: nat, z: nat, ib: nat, ie: nat,
                 A: array<int>, B: array<int>, C: array<int>)
    requires A.Length == n * m && B.Length == m * p && C.Length == n * p
    requires C != A && C != B
    requires ib < ie <= n
    requires (0 < p ==> 0 < z) && (0 < p && 0 < m ==> 0 < x)
    modifies C
    ensures Grown(C[..], old(C[..]), Factors(n, m, p, A[..], B[..]), ib, ie, 0, p, 0, m)
  {
    ghost var f := Factors(n, m, p, A[..], B[..]);
    ghost var c0 := C[..];
    GrownNothing(c0, f, ib, ie, 0, 0, 0, m);
    var js := 0;
    while js < p
      invariant Grown(C[..], c0, f, ib, ie, 0, Min(js, p), 0, m)
      decreases p - js
    {
      var je := Min(js + z, p);
      ghost var c1 := C[..];
      TileColumn(n, m, p, x, ib, ie, js, je, A, B, C);
      GrownBesideColumns(C[..], c1, c0, f, ib, ie, 0, js, je, 0, m);
      js := js + z;
    }
  }

  /** The shared-dimension tile loop (mm-block.c:113-114) for the tile
      [ib, ie) x [js, je): C is the accumulator, each pass adding one tile's
      partial dot products, so every cell of the tile gets its whole sum. */
  method TileColumn(n: nat, m: nat, p: nat, x: nat, ib: nat, ie: nat, js: nat, je: nat,
                    A: array<int>, B: array<int>, C: array<int>)
    requires A.Length == n * m && B.Length == m * p && C.Length == n * p
    requires C != A && C != B
    requires ib <= ie <= n && js < je <= p
    requires 0 < m ==> 0 < x
    modifies C
    ensures Grown(C[..], old(C[..]), Factors(n, m, p, A[..], B[..]), ib, ie, js, je, 0, m)
  {
    ghost var f := Factors(n, m, p, A[..], B[..]);
    ghost var c0 := C[..];
    GrownNothing(c0, f, ib, ie, js, je, 0, 0);
    var ks := 0;
    while ks < m
      invariant Grown(C[..], c0, f, ib, ie, js, je, 0, Min(ks, m))
      decreases m - ks
    {
      var ke := Min(ks + x, m);
      ghost var c1 := C[..];
      BlockDot(n, m, p, ib, ie, js, je, ks, ke, A, B, C);
      GrownAlongShared(C[..], c1, c0, f, ib, ie, js, je, 0, ks, ke);
      ks := ks + x;
    }
  }

  /** Cells of the tile [ib, ie) x [js, je) that come before (ci, cj) in the order
      the block dot-product visits them. */
  predicate Visited(ib: nat, js: nat, je: nat, ci: nat, cj: nat, r: nat, c: nat)
  {
    ib <= r && js <= c < je && (r < ci || (r == ci && c < cj))
  }

  /** The block dot-product (mm-block.c:115-123): for each cell (i, j) of the tile
      [ib, ie) x [js, je), read the cell, add its partial dot product over the
      shared-dimension tile [ks, ke), write it back. Other cells are left alone. */
  method BlockDot(n: nat, m: nat, p: nat, ib: nat, ie: nat, js: nat, je: nat, ks: nat, ke: nat,
                  A: array<int>, B: array<int>, C: array<int>)
    requires A.Length == n * m && B.Length == m * p && C.Length == n * p
    requires C != A && C != B
    requires ib <= ie <= n && js <= je <= p && ks <= ke <= m
    modifies C
    ensures Grown(C[..], old(C[..]), Factors(n, m, p, A[..], B[..]), ib, ie, js, je, ks, ke)
  {
    ghost var f := Factors(n, m, p, A[..], B[..]);
    ghost var c0 := C[..];
    var i := ib;
    while i < ie
      invariant ib <= i <= ie
      invariant forall r: nat, c: nat {:trigger RowMjr(r, c, n, p)} :: r < n && c < p ==>
        C[RowMjr(r, c, n, p)] == c0[RowMjr(r, c, n, p)]
          + if Visited(ib, js, je, i, js, r, c) then Dot(f, r, c, ks, ke) else 0
    {
      var j := js;
      while j < je
        invariant js <= j <= je
        invariant forall r: nat, c: nat {:trigger RowMjr(r, c, n, p)} :: r < n && c < p ==>
          C[RowMjr(r, c, n, p)] == c0[RowMjr(r, c, n, p)]
            + if Visited(ib, js, je, i, j, r, c) then Dot(f, r, c, ks, ke) else 0
      {
        var cv := C[RowMjr(i, j, n, p)];
        var k := ks;
        while k < ke
          invariant ks <= k <= ke
          invariant cv == C[RowMjr(i, j, n, p)] + Dot(f, i, j, ks, k)
        {
          cv := cv + A[RowMjr(i, k, n, m)] * B[RowMjr(k, j, m, p)];
          k := k + 1;
        }
        RowMjrOthers(i, j, n, p);
        C[RowMjr(i, j, n, p)] := cv;
        j := j + 1;
      }
      i := i + 1;
    }
  }

  /** Lines 183-186 of the driver: each tile size is cut down to the dimension it
      runs along, and stays positive when that dimension is. */
  function FixUp(n: nat, m: nat, p: nat, t: Tiles): (u: Tiles)
    ensures u.x <= m && u.y <= n && u.z <= p
    ensures u.x <= t.x && u.y <= t.y && u.z <= t.z
    ensures (t.x <= m ==> u.x == t.x) && (t.y <= n ==> u.y == t.y) && (t.z <= p ==> u.z == t.z)
    ensures (0 < t.x && 0 < m ==> 0 < u.x) && (0 < t.y && 0 < n ==> 0 < u.y)
    ensures 0 < t.z && 0 < p ==> 0 < u.z
    ensures (m <= t.x ==> u.x == m) && (n <= t.y ==> u.y == n) && (p <= t.z ==> u.z == p)
  {
    Tiles(Min(t.x, m), Min(t.y, n), Min(t.z, p))
  }

  /** With the arguments in the order the driver passes them, (y, x, z), the
      kernel's row step is the clamped x and its shared step the clamped y: its
      loops advance exactly when A has at least one column or no rows. */
  lemma AsWrittenStepsAdvance(n: nat, m: nat, p: nat, t: Tiles)
    requires 0 < t.x && 0 < t.y && 0 < t.z
    ensures var u := FixUp(n, m, p, t);
      StepsAdvance(n, m, p, u.y, u.x, u.z) <==> (n == 0 || 0 < m)
  {
  }

  /** One row, no shared dimension, default tiles: the as-written call gives the
      kernel a row step of 0 while row 0 is still to be done, so `is += y` never
      moves. */
  lemma AsWrittenStalls()
    ensures var u := FixUp(1, 0, 1, Tiles(1, 1, 1));
      u.x == 0 && !StepsAdvance(1, 0, 1, u.y, u.x, u.z)
  {
  }

  /** Passed in the order the kernel declares, (x, y, z), the clamped tile sizes
      always let the kernel's loops advance. */
  lemma FixedUpStepsAdvance(n: nat, m: nat, p: nat, t: Tiles)
    requires 0 < t.x && 0 < t.y && 0 < t.z
    ensures var u := FixUp(n, m, p, t); StepsAdvance(n, m, p, u.x, u.y, u.z)
  {
  }

  /** The driver as written (mm-block.c:180-189): C is zero-filled (calloc), the
      tile sizes are clamped and passed as (y, x, z). It only terminates when A has
      a column or no rows; then C is A * B, the swap changing only the grouping. */
  method BlockMainAsWritten(n: nat, m: nat, p: nat, t: Tiles, A: array<int>, B: array<int>)
    returns (c: seq<int>)
    requires A.Length == n * m && B.Length == m * p
    requires 0 < t.x && 0 < t.y && 0 < t.z
    requires n == 0 || 0 < m
    ensures c == Product(Factors(n, m, p, A[..], B[..]))
  {
    var C := new int[n * p](_ => 0);
    var u := FixUp(n, m, p, t);
    AsWrittenStepsAdvance(n, m, p, t);
    MatMultBlk(n, m, p, u.y, u.x, u.z, A, B, C);
    c := C[..];
    ProductByCells(Factors(n, m, p, A[..], B[..]), c);
  }

  /** The driver with the clamped sizes passed in the kernel's own order (x, y, z):
      for every positive tile triple C ends as A * B. */
  method BlockMain(n: nat, m: nat, p: nat, t: Tiles, A: array<int>, B: array<int>)
    returns (c: seq<int>)
    requires A.Length == n * m && B.Length == m * p
    requires 0 < t.x && 0 < t.y && 0 < t.z
    ensures c == Product(Factors(n, m, p, A[..], B[..]))
  {
    var C := new int[n * p](_ => 0);
    var u := FixUp(n, m, p, t);
    FixedUpStepsAdvance(n, m, p, t);
    MatMultBlk(n, m, p, u.x, u.y, u.z, A, B, C);
    c := C[..];
    ProductByCells(Factors(n, m, p, A[..], B[..]), c);
  }
}
