/** The two programs side by side: each driver zero-fills C (calloc) and runs its
    kernel; both end with the same C, A * B, and the blocked one does so for every
    choice of tile sizes. */
module Compare {
  import opened Layout
  import Simple
  import Block

  /** The naive program's main (mm-simple.c:133-138) with the kernel as written:
      defined when the shared dimension equals the number of columns of B or a
      dimension is zero, and on all those sizes C is A * B (when m is zero and p is
      not, the untouched calloc zeros are exactly the product). */
  method SimpleMainAsWritten(n: nat, m: nat, p: nat, A: array<int>, B: array<int>)
    returns (c: seq<int>)
    requires A.Length == n * m && B.Length == m * p
    requires n == 0 || m == 0 || m == p
    ensures c == Product(Factors(n, m, p, A[..], B[..]))
  {
    var C := new int[n * p](_ => 0);
    Simple.MatMultAsWritten(n, m, p, A, B, C);
    c := C[..];
    ProductByCells(Factors(n, m, p, A[..], B[..]), c);
  }

  /** The naive program's main with the corrected kernel: C is A * B for all sizes. */
  method SimpleMain(n: nat, m: nat, p: nat, A: array<int>, B: array<int>)
    returns (c: seq<int>)
    requires A.Length == n * m && B.Length == m * p
    ensures c == Product(Factors(n, m, p, A[..], B[..]))
  {
    var C := new int[n * p](_ => 0);
    Simple.MatMult(n, m, p, A, B, C);
    c := C[..];
    ProductByCells(Factors(n, m, p, A[..], B[..]), c);
  }

  /** Both programs as written, where both are defined (B square, and A with a
      column unless it has no rows), compute the same C. */
  method AsWrittenAgree(n: nat, m: nat, t: Block.Tiles, A: array<int>, B: array<int>)
    returns (naive: seq<int>, blocked: seq<int>)
    requires A.Length == n * m && B.Length == m * m
    requires 0 < t.x && 0 < t.y && 0 < t.z
    requires n == 0 || 0 < m
    ensures naive == blocked == Product(Factors(n, m, m, A[..], B[..]))
  {
    naive := SimpleMainAsWritten(n, m, m, A, B);
    blocked := Block.BlockMainAsWritten(n, m, m, t, A, B);
  }

  /** The blocked driver's argument order (y, x, z) changes only how the sums are
      grouped: wherever the as-written driver finishes, it ends with the same C as
      the driver that passes (x, y, z). */
  method DriverOrderIrrelevant(n: nat, m: nat, p: nat, t: Block.Tiles, A: array<int>, B: array<int>)
    returns (asWritten: seq<int>, corrected: seq<int>)
    requires A.Length == n * m && B.Length == m * p
    requires 0 < t.x && 0 < t.y && 0 < t.z
    requires n == 0 || 0 < m
    ensures asWritten == corrected == Product(Factors(n, m, p, A[..], B[..]))
  {
    asWritten := Block.BlockMainAsWritten(n, m, p, t, A, B);
    corrected := Block.BlockMain(n, m, p, t, A, B);
  }

  /** Both corrected programs compute the same C for all sizes and tile sizes. */
  method KernelsAgree(n: nat, m: nat, p: nat, t: Block.Tiles, A: array<int>, B: array<int>)
    returns (naive: seq<int>, blocked: seq<int>)
    requires A.Length == n * m && B.Length == m * p
    requires 0 < t.x && 0 < t.y && 0 < t.z
    ensures naive == blocked == Product(Factors(n, m, p, A[..], B[..]))
  {
    naive := SimpleMain(n, m, p, A, B);
    blocked := Block.BlockMain(n, m, p, t, A, B);
  }

  /** The blocked kernel run with tile sizes t on a buffer holding c0. */
  method BlockedFrom(n: nat, m: nat, p: nat, t: Block.Tiles, A: array<int>, B: array<int>, c0: seq<int>)
    returns (c: seq<int>)
    requires A.Length == n * m && B.Length == m * p && |c0| == n * p
    requires 0 < t.x && 0 < t.y && 0 < t.z
    ensures |c| == n * p
    ensures forall i: nat, j: nat {:trigger RowMjr(i, j, n, p)} :: i < n && j < p ==>
      c[RowMjr(i, j, n, p)] == c0[RowMjr(i, j, n, p)] + Product(Factors(n, m, p, A[..], B[..]))[RowMjr(i, j, n, p)]
  {
    var C := new int[n * p](k requires 0 <= k < n * p => c0[k]);
    Block.MatMultBlk(n, m, p, t.x, t.y, t.z, A, B, C);
    c := C[..];
  }

  /** The tile sizes do not change the result: any two tile triples, applied to the
      same prior C, give the same C, and so does a single tile covering the matrix. */
  method TilingIrrelevant(n: nat, m: nat, p: nat, t1: Block.Tiles, t2: Block.Tiles,
                          A: array<int>, B: array<int>, c0: seq<int>)
    returns (c1: seq<int>, c2: seq<int>, whole: seq<int>)
    requires A.Length == n * m && B.Length == m * p && |c0| == n * p
    requires 0 < t1.x && 0 < t1.y && 0 < t1.z && 0 < t2.x && 0 < t2.y && 0 < t2.z
    ensures c1 == c2 == whole
  {
    c1 := BlockedFrom(n, m, p, t1, A, B, c0);
    c2 := BlockedFrom(n, m, p, t2, A, B, c0);
    whole := BlockedFrom(n, m, p, Block.Tiles(m + 1, n + 1, p + 1), A, B, c0);
    forall t | 0 <= t < n * p
      ensures c1[t] == c2[t] == whole[t]
    {
      RowMjrOnto(t, n, p);
    }
  }

  /** A dot product over a shared dimension of two, written out. */
  lemma DotOfTwo(f: Factors, i: nat, j: nat)
    requires f.Valid() && f.m == 2 && i < f.n && j < f.p
    ensures Dot(f, i, j, 0, 2) == f.A(i, 0) * f.B(0, j) + f.A(i, 1) * f.B(1, j)
  {
    assert Dot(f, i, j, 0, 1) == f.A(i, 0) * f.B(0, j);
  }

  /** Cell (i, j) of [[1, 2], [3, 4]] * [[5, 6], [7, 8]]. */
  lemma SquareExampleCell(i: nat, j: nat)
    requires i < 2 && j < 2
    ensures Dot(Factors(2, 2, 2, [1, 2, 3, 4], [5, 6, 7, 8]), i, j, 0, 2) == [19, 22, 43, 50][2 * i + j]
  {
    var f := Factors(2, 2, 2, [1, 2, 3, 4], [5, 6, 7, 8]);
    DotOfTwo(f, i, j);
    if i == 0 && j == 0 {
      assert f.A(0, 0) == 1 && f.A(0, 1) == 2 && f.B(0, 0) == 5 && f.B(1, 0) == 7;
    } else if i == 0 {
      assert f.A(0, 0) == 1 && f.A(0, 1) == 2 && f.B(0, 1) == 6 && f.B(1, 1) == 8;
    } else if j == 0 {
      assert f.A(1, 0) == 3 && f.A(1, 1) == 4 && f.B(0, 0) == 5 && f.B(1, 0) == 7;
    } else {
      assert f.A(1, 0) == 3 && f.A(1, 1) == 4 && f.B(0, 1) == 6 && f.B(1, 1) == 8;
    }
  }

  /** [[1, 2], [3, 4]] * [[5, 6], [7, 8]] = [[19, 22], [43, 50]]. */
  lemma SquareExample()
    ensures Product(Factors(2, 2, 2, [1, 2, 3, 4], [5, 6, 7, 8])) == [19, 22, 43, 50]
  {
    var f := Factors(2, 2, 2, [1, 2, 3, 4], [5, 6, 7, 8]);
    var c := [19, 22, 43, 50];
    forall i: nat, j: nat | i < 2 && j < 2
      ensures c[RowMjr(i, j, 2, 2)] == Dot(f, i, j, 0, 2)
    {
      SquareExampleCell(i, j);
    }
    ProductByCells(f, c);
  }

  /** Both programs as written on the 2-by-2 example. */
  method SquareExampleRuns() returns (naive: seq<int>, blocked: seq<int>)
    ensures naive == blocked == [19, 22, 43, 50]
  {
    var A := new int[] [1, 2, 3, 4];
    var B := new int[] [5, 6, 7, 8];
    assert A[..] == [1, 2, 3, 4] && B[..] == [5, 6, 7, 8];
    SquareExample();
    naive, blocked := AsWrittenAgree(2, 2, Block.Tiles(1, 1, 1), A, B);
  }

  /** [1, 2, 3] * [4, 5, 6]^T = [32]. */
  lemma RowTimesColumnExample()
    ensures Product(Factors(1, 3, 1, [1, 2, 3], [4, 5, 6])) == [32]
  {
    var f := Factors(1, 3, 1, [1, 2, 3], [4, 5, 6]);
    assert Dot(f, 0, 0, 0, 1) == 4;
    assert Dot(f, 0, 0, 0, 2) == 4 + 10;
    assert Dot(f, 0, 0, 0, 3) == 14 + 18;
    ProductByCells(f, [32]);
  }

  /** [1, 2, 3] * [4, 5, 6]^T = [32]: where the naive kernel as written leaves its
      buffers, the corrected programs compute the 1-by-1 product. */
  method RowTimesColumn() returns (naive: seq<int>, blocked: seq<int>)
    ensures naive == blocked == [32]
  {
    var A := new int[] [1, 2, 3];
    var B := new int[] [4, 5, 6];
    assert A[..] == [1, 2, 3] && B[..] == [4, 5, 6];
    RowTimesColumnExample();
    naive, blocked := KernelsAgree(1, 3, 1, Block.Tiles(1, 1, 1), A, B);
  }

  /** One row, no shared dimension: the corrected blocked driver ends with C = [0]
      where the as-written one never leaves its row loop. */
  method EmptySharedDimension() returns (blocked: seq<int>)
    ensures blocked == [0]
  {
    var A := new int[0];
    var B := new int[0];
    ProductZeroRight(1, 0, 1, A[..]);
    blocked := Block.BlockMain(1, 0, 1, Block.Tiles(1, 1, 1), A, B);
  }
}
