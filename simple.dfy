/** The naive program (mm-simple.c): the triple loop S_matmult, which overwrites C
    with A * B through a per-cell accumulator, as written and with its loop bounds
    corrected. */
module Simple {
  import opened Layout

  /** The loop bounds of S_matmult as written take j below m and k below p: its
      accesses stay inside the buffers exactly when A has no rows, B has no rows,
      or the shared dimension equals the number of columns of B. */
  lemma AsWrittenInBoundsIff(n: nat, m: nat, p: nat)
    ensures LoopAccessesInBounds(n, m, p, n, m, p) <==> (n == 0 || m == 0 || m == p)
  {
    if m == p {
      ProductLoopsInBounds(n, m, p);
    } else if n != 0 && m != 0 {
      if p < m {
        // C(n - 1, p) is written, one past the end of C
        assert (n - 1) * p + p == n * p;
        assert RowMjr(n - 1, p, n, p) == n * p;
      } else {
        // A(n - 1, m) is read, one past the end of A
        assert (n - 1) * m + m == n * m;
        assert RowMjr(n - 1, m, n, m) == n * m;
        assert RowMjr(m, 0, m, p) == m * p;
      }
    }
  }

  /** A 1-by-3 A times a 3-by-1 B: the loops as written write C(0, 1) and C(0, 2),
      past the single cell of C. */
  lemma NonSquareOutOfBounds()
    ensures !LoopAccessesInBounds(1, 3, 1, 1, 3, 1)
    ensures RowMjr(0, 1, 1, 1) == 1 && RowMjr(0, 2, 1, 1) == 2
  {
    assert RowMjr(0, 2, 1, 1) == 2;
  }

  /** Cells of an n-by-p matrix that the row-by-row traversal has already written
      once it is at cell (ci, cj). */
  predicate Written(ci: nat, cj: nat, r: nat, c: nat)
  {
    r < ci || (r == ci && c < cj)
  }

  /** S_matmult as written (mm-simple.c:93-108), for the sizes where its accesses
      are in bounds. A cell of C holds its dot product once the loops reach it
      (whatever it held before), and only cells in the first m columns are reached:
      all of C when the shared dimension equals the number of columns of B, none
      otherwise. */
  method MatMultAsWritten(n: nat, m: nat, p: nat, A: array<int>, B: array<int>, C: array<int>)
    requires A.Length == n * m && B.Length == m * p && C.Length == n * p
    requires C != A && C != B
    requires n == 0 || m == 0 || m == p
    modifies C
    ensures forall i: nat, j: nat {:trigger RowMjr(i, j, n, p)} :: i < n && j < p ==>
      C[RowMjr(i, j, n, p)] ==
        if j < m then Dot(Factors(n, m, p, A[..], B[..]), i, j, 0, m) else old(C[RowMjr(i, j, n, p)])
    ensures m == p ==> forall i: nat, j: nat {:trigger RowMjr(i, j, n, p)} :: i < n && j < p ==>
      C[RowMjr(i, j, n, p)] == Dot(Factors(n, m, p, A[..], B[..]), i, j, 0, m)
  {
    ghost var f := Factors(n, m, p, A[..], B[..]);
    ghost var c0 := C[..];
    for i := 0 to n
      invariant forall r: nat, c: nat {:trigger RowMjr(r, c, n, p)} :: r < n && c < p ==>
        C[RowMjr(r, c, n, p)] == if r < i && c < m then Dot(f, r, c, 0, m) else c0[RowMjr(r, c, n, p)]
    {
      for j := 0 to m
        invariant forall r: nat, c: nat {:trigger RowMjr(r, c, n, p)} :: r < n && c < p ==>
          C[RowMjr(r, c, n, p)] ==
            if Written(i, j, r, c) && c < m then Dot(f, r, c, 0, m) else c0[RowMjr(r, c, n, p)]
      {
        // a cell is reached only when n and m are non-zero, so m == p here
        var cv := 0;
        for k := 0 to p
          invariant cv == Dot(f, i, j, 0, k)
        {
          cv := cv + A[RowMjr(i, k, n, m)] * B[RowMjr(k, j, m, p)];
        }
        RowMjrOthers(i, j, n, p);
        C[RowMjr(i, j, n, p)] := cv;
      }
    }
  }

  /** S_matmult with j running over the columns of B and k over the shared
      dimension: C ends as A * B for all sizes, whatever it held before. */
  method MatMult(n: nat, m: nat, p: nat, A: array<int>, B: array<int>, C: array<int>)
    requires A.Length == n * m && B.Length == m * p && C.Length == n * p
    requires C != A && C != B
    modifies C
    ensures forall i: nat, j: nat {:trigger RowMjr(i, j, n, p)} :: i < n && j < p ==>
      C[RowMjr(i, j, n, p)] == Dot(Factors(n, m, p, A[..], B[..]), i, j, 0, m)
  {
    ghost var f := Factors(n, m, p, A[..], B[..]);
    for i := 0 to n
      invariant forall r: nat, c: nat {:trigger RowMjr(r, c, n, p)} ::
        r < i && c < p ==> C[RowMjr(r, c, n, p)] == Dot(f, r, c, 0, m)
    {
      for j := 0 to p
        invariant forall r: nat, c: nat {:trigger RowMjr(r, c, n, p)} ::
          r < n && c < p && Written(i, j, r, c) ==> C[RowMjr(r, c, n, p)] == Dot(f, r, c, 0, m)
      {
        var cv := 0;
        for k := 0 to m
          invariant cv == Dot(f, i, j, 0, k)
        {
          cv := cv + A[RowMjr(i, k, n, m)] * B[RowMjr(k, j, m, p)];
        }
        RowMjrOthers(i, j, n, p);
        C[RowMjr(i, j, n, p)] := cv;
      }
    }
  }
}
