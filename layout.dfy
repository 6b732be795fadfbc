/** Row-major layout shared by both programs (the ROWMJR, A, B, C and min macros)
    and the matrix product that both multiplication kernels are meant to compute.
    Matrix elements are mathematical integers: sums are exact, so the order in
    which partial dot products are added does not matter. */
module Layout {

  /** Offset of element (r, c) of an nr-by-nc matrix in its row-major buffer.
      Like the macro, the offset does not depend on nr; nr only bounds it. */
  function RowMjr(r: nat, c: nat, nr: nat, nc: nat): (t: nat)
    ensures r < nr && c < nc ==> t < nr * nc
  {
    MulMono(r + 1, nr, nc);
    r * nc + c
  }

  lemma MulMono(a: nat, b: nat, c: nat)
    ensures a <= b ==> a * c <= b * c
  {
  }

  /** The smaller of two sizes: the min macro of the blocked kernel and the
      clamping of tile sizes in its driver. */
  function Min(a: nat, b: nat): (r: nat)
    ensures r <= a && r <= b && (r == a || r == b)
  {
    if a < b then a else b
  }

  /** Reading an offset back as (row, column). */
  lemma RowMjrDecode(r: nat, c: nat, nr: nat, nc: nat)
    requires c < nc
    ensures RowMjr(r, c, nr, nc) / nc == r && RowMjr(r, c, nr, nc) % nc == c
  {
    var t := RowMjr(r, c, nr, nc);
    var q, s := t / nc, t % nc;
    assert t == q * nc + s && 0 <= s < nc;
    if q < r {
      MulMono(q + 1, r, nc);
      assert false;
    } else if r < q {
      MulMono(r + 1, q, nc);
      assert false;
    }
  }

  lemma RowMjrDecodeAll(nr: nat, nc: nat)
    ensures forall r: nat, c: nat {:trigger RowMjr(r, c, nr, nc)} :: c < nc ==>
      RowMjr(r, c, nr, nc) / nc == r && RowMjr(r, c, nr, nc) % nc == c
  {
    forall r: nat, c: nat | c < nc
      ensures RowMjr(r, c, nr, nc) / nc == r && RowMjr(r, c, nr, nc) % nc == c
    {
      RowMjrDecode(r, c, nr, nc);
    }
  }

  /** Every offset of an nr-by-nc buffer is the offset of exactly one in-range
      cell: the layout is a bijection between cells and the buffer. */
  lemma {:induction false} RowMjrOnto(t: nat, nr: nat, nc: nat)
    requires t < nr * nc
    ensures 0 < nc && t / nc < nr && t % nc < nc
    ensures RowMjr(t / nc, t % nc, nr, nc) == t
  {
    var q := t / nc;
    assert t == q * nc + t % nc;
    if nr <= q {
      MulMono(nr, q, nc);
      assert false;
    }
  }

  /** Distinct cells of a matrix with nc columns live at distinct offsets: writing
      one cell leaves every other cell as it was. */
  lemma RowMjrOthers(r: nat, c: nat, nr: nat, nc: nat)
    requires c < nc
    ensures forall r2: nat, c2: nat {:trigger RowMjr(r2, c2, nr, nc)} ::
      c2 < nc && (r2 != r || c2 != c) ==> RowMjr(r2, c2, nr, nc) != RowMjr(r, c, nr, nc)
  {
    forall r2: nat, c2: nat | c2 < nc && (r2 != r || c2 != c)
      ensures RowMjr(r2, c2, nr, nc) != RowMjr(r, c, nr, nc)
    {
      RowMjrDecode(r, c, nr, nc);
      RowMjrDecode(r2, c2, nr, nc);
    }
  }

  /** Every access made by loops i < ni, j < nj, k < nk that read A(i, k) and
      B(k, j) and write C(i, j) falls inside the buffers of an n-by-m A, an m-by-p
      B and an n-by-p C. A(i, k) is read only if the j loop is entered, and B(k, j)
      only if the i loop is. */
  ghost predicate LoopAccessesInBounds(n: nat, m: nat, p: nat, ni: nat, nj: nat, nk: nat)
  {
    && (forall i: nat, k: nat {:trigger RowMjr(i, k, n, m)} ::
          i < ni && 0 < nj && k < nk ==> RowMjr(i, k, n, m) < n * m)
    && (forall k: nat, j: nat {:trigger RowMjr(k, j, m, p)} ::
          0 < ni && j < nj && k < nk ==> RowMjr(k, j, m, p) < m * p)
    && (forall i: nat, j: nat {:trigger RowMjr(i, j, n, p)} ::
          i < ni && j < nj ==> RowMjr(i, j, n, p) < n * p)
  }

  /** Loops over rows of A (i < n), columns of B (j < p) and the shared dimension
      (k < m) stay inside the buffers, whatever the sizes. */
  lemma ProductLoopsInBounds(n: nat, m: nat, p: nat)
    ensures LoopAccessesInBounds(n, m, p, n, p, m)
  {
  }

  /** The operands of a product: A is n-by-m and B is m-by-p, both row-major. */
  datatype Factors = Factors(n: nat, m: nat, p: nat, a: seq<int>, b: seq<int>)
  {
    predicate Valid() {
      |a| == n * m && |b| == m * p
    }

    /** The A(r, c) macro. */
    function A(i: nat, k: nat): (v: int)
      requires Valid() && i < n && k < m
    {
      a[RowMjr(i, k, n, m)]
    }

    /** The B(r, c) macro. */
    function B(k: nat, j: nat): (v: int)
      requires Valid() && k < m && j < p
    {
      b[RowMjr(k, j, m, p)]
    }
  }

  /** The sum of A(i, k) * B(k, j) over lo <= k < hi, accumulated with k ascending. */
  function Dot(f: Factors, i: nat, j: nat, lo: nat, hi: nat): (s: int)
    requires f.Valid() && i < f.n && j < f.p && hi <= f.m
    decreases hi
  {
    if hi <= lo then 0 else Dot(f, i, j, lo, hi - 1) + f.A(i, hi - 1) * f.B(hi - 1, j)
  }

  /** Cutting the range of k into two consecutive pieces does not change the sum. */
  lemma {:induction false} DotSplit(f: Factors, i: nat, j: nat, lo: nat, mid: nat, hi: nat)
    requires f.Valid() && i < f.n && j < f.p && lo <= mid <= hi <= f.m
    ensures Dot(f, i, j, lo, hi) == Dot(f, i, j, lo, mid) + Dot(f, i, j, mid, hi)
    decreases hi
  {
    if mid < hi {
      DotSplit(f, i, j, lo, mid, hi - 1);
    }
  }

  /** C = A * B as an n-by-p row-major buffer. */
  function Product(f: Factors): (c: seq<int>)
    requires f.Valid()
    ensures |c| == f.n * f.p
    ensures forall i: nat, j: nat {:trigger RowMjr(i, j, f.n, f.p)} :: i < f.n && j < f.p ==>
      c[RowMjr(i, j, f.n, f.p)] == Dot(f, i, j, 0, f.m)
  {
    RowMjrDecodeAll(f.n, f.p);
    seq(f.n * f.p, t requires 0 <= t < f.n * f.p =>
      RowMjrOnto(t, f.n, f.p);
      Dot(f, t / f.p, t % f.p, 0, f.m))
  }

  /** A buffer of n * p cells holds the product as soon as every cell (i, j) holds
      the dot product of row i of A with column j of B. */
  lemma ProductByCells(f: Factors, c: seq<int>)
    requires f.Valid() && |c| == f.n * f.p
    requires forall i: nat, j: nat {:trigger RowMjr(i, j, f.n, f.p)} :: i < f.n && j < f.p ==>
      c[RowMjr(i, j, f.n, f.p)] == Dot(f, i, j, 0, f.m)
    ensures c == Product(f)
  {
    var prod := Product(f);
    forall t | 0 <= t < |c|
      ensures c[t] == prod[t]
    {
      RowMjrOnto(t, f.n, f.p);
      var i, j := t / f.p, t % f.p;
      assert RowMjr(i, j, f.n, f.p) == t;
    }
  }

  /** A buffer of len zeros (calloc). */
  function Zeros(len: nat): (z: seq<int>)
    ensures |z| == len
    ensures forall t :: 0 <= t < len ==> z[t] == 0
  {
    seq(len, _ => 0)
  }

  lemma {:induction false} DotZeroRight(f: Factors, i: nat, j: nat, hi: nat)
    requires f.Valid() && i < f.n && j < f.p && hi <= f.m
    requires f.b == Zeros(f.m * f.p)
    ensures Dot(f, i, j, 0, hi) == 0
  {
    if 0 < hi {
      DotZeroRight(f, i, j, hi - 1);
      assert f.B(hi - 1, j) == 0;
    }
  }

  /** A * 0 = 0: multiplying by a zero matrix gives the zero n-by-p matrix. */
  lemma ProductZeroRight(n: nat, m: nat, p: nat, a: seq<int>)
    requires |a| == n * m
    ensures Product(Factors(n, m, p, a, Zeros(m * p))) == Zeros(n * p)
  {
    var f := Factors(n, m, p, a, Zeros(m * p));
    forall i: nat, j: nat | i < n && j < p
      ensures Zeros(n * p)[RowMjr(i, j, n, p)] == Dot(f, i, j, 0, m)
    {
      DotZeroRight(f, i, j, m);
    }
    ProductByCells(f, Zeros(n * p));
  }

  /** The m-by-m identity matrix, row-major. */
  function Identity(m: nat): (e: seq<int>)
    ensures |e| == m * m
    ensures forall k: nat, j: nat {:trigger RowMjr(k, j, m, m)} :: k < m && j < m ==>
      e[RowMjr(k, j, m, m)] == if k == j then 1 else 0
  {
    RowMjrDecodeAll(m, m);
    seq(m * m, t requires 0 <= t < m * m =>
      RowMjrOnto(t, m, m);
      if t / m == t % m then 1 else 0)
  }

  lemma {:induction false} DotIdentityRight(f: Factors, i: nat, j: nat, hi: nat)
    requires f.Valid() && f.p == f.m && f.b == Identity(f.m)
    requires i < f.n && j < f.m && hi <= f.m
    ensures Dot(f, i, j, 0, hi) == if j < hi then f.A(i, j) else 0
  {
    if 0 < hi {
      DotIdentityRight(f, i, j, hi - 1);
      assert f.B(hi - 1, j) == if hi - 1 == j then 1 else 0;
    }
  }

  /** A * I = A for an n-by-m matrix A and the m-by-m identity. */
  lemma ProductIdentityRight(n: nat, m: nat, a: seq<int>)
    requires |a| == n * m
    ensures Product(Factors(n, m, m, a, Identity(m))) == a
  {
    var f := Factors(n, m, m, a, Identity(m));
    forall i: nat, j: nat | i < n && j < m
      ensures a[RowMjr(i, j, n, m)] == Dot(f, i, j, 0, m)
    {
      DotIdentityRight(f, i, j, m);
    }
    ProductByCells(f, a);
  }
}
