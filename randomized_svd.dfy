/**
 * The early randomized truncated SVD: a Gaussian sketch of the working matrix's range refined by
 * power iterations (each followed by the L factor of an LU decomposition), orthonormalised by QR,
 * then a full SVD of the small projected matrix. The orientation flag, the shapes, the sketch
 * width and the result columns are modelled; the jblas routines are parameters (`Jblas`) about
 * which only their output shapes are assumed.
 */
module RandomizedSvd {
  import opened Doubles
  import opened Matrices

  /** `Singular.fullSVD`: U, the singular values, and V. */
  datatype FullSvd = FullSvd(u: Matrix, s: seq<Double>, v: Matrix)

  /** The jblas routines `fit` calls: `randn`, the L of `Decompose.lu`, the Q of `Decompose.qr`, `fullSVD`. */
  datatype Jblas = Jblas(randn: (nat, nat) -> Matrix, luL: Matrix -> Matrix, qrQ: Matrix -> Matrix,
                         fullSVD: Matrix -> FullSvd)

  /** The output shapes of the jblas routines, the only facts about them the model relies on. */
  ghost predicate Shapes(lib: Jblas) {
    (forall r: nat, c: nat {:trigger lib.randn(r, c)} ::
       lib.randn(r, c).rows == r && lib.randn(r, c).cols == c) &&
    (forall m: Matrix {:trigger lib.luL(m)} ::
       m.rows >= m.cols ==> lib.luL(m).rows == m.rows && lib.luL(m).cols == m.cols) &&
    (forall m: Matrix {:trigger lib.qrQ(m)} :: lib.qrQ(m).rows == m.rows && lib.qrQ(m).cols >= m.cols) &&
    (forall m: Matrix {:trigger lib.fullSVD(m)} ::
       lib.fullSVD(m).u.rows == m.rows && lib.fullSVD(m).u.cols == m.rows &&
       |lib.fullSVD(m).s| == Min(m.rows, m.cols) &&
       lib.fullSVD(m).v.rows == m.cols && lib.fullSVD(m).v.cols == m.cols)
  }

  /** The matrix `fit` works on: `A` itself, or its transpose when `A` has more rows than columns. */
  function Working(a: Matrix): (w: Matrix)
    ensures w.rows == Min(a.rows, a.cols) && w.rows <= w.cols
    ensures w == if a.rows > a.cols then Transpose(a) else a
  {
    if a.rows > a.cols then Transpose(a) else a
  }

  /** The sketch after `i` power iterations `Q := L(lu(C · Q))`. */
  function PowerIterate(lib: Jblas, c: Matrix, q: Matrix, i: nat): (z: Matrix)
    requires Shapes(lib) && c.rows == c.cols == q.rows && q.rows >= q.cols
    ensures z.rows == q.rows && z.cols == q.cols
  {
    if i == 0 then q else lib.luL(MatMul(c, PowerIterate(lib, c, q, i - 1)))
  }

  /** The number of columns of the random sketch: the working rows, or `k + p` if fewer. */
  function SketchWidth(a: Matrix, k: nat, p: nat): nat {
    Min(Working(a).rows, k + p)
  }

  /** The orthonormal range basis Q after the iterations and the final QR step. */
  function RangeBasis(lib: Jblas, a: Matrix, k: nat, niters: int, p: nat): (q: Matrix)
    requires Shapes(lib)
    ensures q.rows == Working(a).rows && q.cols >= SketchWidth(a, k, p)
  {
    var w := Working(a);
    var c := MatMul(w, Transpose(w));
    var q0 := lib.randn(w.rows, SketchWidth(a, k, p));
    var iters := if niters < 0 then 0 else niters;
    lib.qrQ(MatMul(c, PowerIterate(lib, c, q0, iters)))
  }

  /** `W = Q · U_B`, the singular values and `V_B` of the projected matrix `Qᵗ · A`. */
  datatype Projection = Projection(w: Matrix, s: seq<Double>, v: Matrix)

  function Project(lib: Jblas, a: Matrix, k: nat, niters: int, p: nat): (f: Projection)
    requires Shapes(lib) && k <= Min(a.rows, a.cols)
    ensures f.w.rows == Working(a).rows && f.w.cols >= k && |f.s| >= k
    ensures f.v.rows == Working(a).cols && f.v.cols == Working(a).cols
  {
    var w := Working(a);
    var q := RangeBasis(lib, a, k, niters, p);
    assert k <= SketchWidth(a, k, p) <= q.cols;
    var x := MatMul(Transpose(q), w);
    assert x.rows == q.cols && x.cols == w.cols;
    var svd := lib.fullSVD(x);
    assert |svd.s| == Min(q.cols, w.cols) >= k;
    Projection(MatMul(q, svd.u), svd.s, svd.v)
  }

  /** The three results of `fit`: `rsvd[0]`, `rsvd[1]` and `rsvd[2]`. */
  datatype Rsvd = Rsvd(u: Matrix, s: seq<Double>, v: Matrix)

  /**
   * What `fit` leaves in `rsvd`: the first `k` columns of `W = Q · U_B`, the first `k` singular
   * values and the first `k` columns of `V_B`; the two matrices change places when the working
   * matrix is the transpose. The shapes are those of the original `A`.
   */
  function FitResult(lib: Jblas, a: Matrix, k: nat, niters: int, p: nat): (r: Rsvd)
    requires Shapes(lib) && k <= Min(a.rows, a.cols)
    ensures r.u.rows == a.rows && r.u.cols == k && |r.s| == k && r.v.rows == a.cols && r.v.cols == k
  {
    var f := Project(lib, a, k, niters, p);
    if a.rows > a.cols then Rsvd(FirstColumns(f.v, k), f.s[..k], FirstColumns(f.w, k))
    else Rsvd(FirstColumns(f.w, k), f.s[..k], FirstColumns(f.v, k))
  }

  /**
   * Fitting the transpose of a non-square matrix gives the same singular values with U and V
   * exchanged, for the same random sketch: both orientations work on the same matrix, and
   * only the flag differs. `randn` is a function of the shape here, so both fits draw the same
   * sketch, where jblas draws a fresh one on every call.
   */
  lemma FitOfTranspose(lib: Jblas, a: Matrix, k: nat, niters: int, p: nat)
    requires Shapes(lib) && k <= Min(a.rows, a.cols) && a.rows != a.cols
    ensures var r := FitResult(lib, a, k, niters, p);
      FitResult(lib, Transpose(a), k, niters, p) == Rsvd(r.v, r.s, r.u)
  {
    TransposeInvolution(a);
    assert Working(Transpose(a)) == Working(a);
    assert Project(lib, Transpose(a), k, niters, p) == Project(lib, a, k, niters, p);
  }

  /** Rows hold those of `src` in columns before `i`, zeros after. */
  predicate ColumnsDone(m: Matrix, src: Matrix, i: nat) {
    m.rows == src.rows && i <= m.cols <= src.cols &&
    forall r, c :: 0 <= r < m.rows && 0 <= c < m.cols ==>
      m.at[r][c] == if c < i then src.at[r][c] else Num(0.0)
  }

  lemma ColumnsDoneStep(m: Matrix, src: Matrix, i: nat)
    requires ColumnsDone(m, src, i) && i < m.cols
    ensures ColumnsDone(WithColumn(m, i, Column(src, i)), src, i + 1)
  {
  }

  lemma ColumnsDoneAll(m: Matrix, src: Matrix)
    requires ColumnsDone(m, src, m.cols)
    ensures m == FirstColumns(src, m.cols)
  {
    Extensionality(m, FirstColumns(src, m.cols));
  }

  class RandomizedSVD {
    var numComponents: nat
    var niters: int
    var numOversamples: nat
    /** Whether `fit` worked on the transpose of its argument. */
    var transpose: bool
    var rsvd0: array2<Double>
    var rsvd1: array<Double>
    var rsvd2: array2<Double>

    /** Sets the component and iteration counts; the oversampling stays 10. */
    constructor (numComponents: nat, niters: int)
      ensures this.numComponents == numComponents && this.niters == niters
      ensures numOversamples == 10 && !transpose
    {
      this.numComponents := numComponents;
      this.niters := niters;
      numOversamples := 10;
      transpose := false;
      rsvd0 := new Double[0, 0];
      rsvd1 := new Double[0];
      rsvd2 := new Double[0, 0];
    }

    /** The randomized SVD of `a`: `rsvd` holds `rows x k`, `k` and `columns x k` results. */
    method Fit(a: Matrix, lib: Jblas)
      requires Shapes(lib) && numComponents <= Min(a.rows, a.cols)
      modifies this
      ensures numComponents == old(numComponents) && niters == old(niters)
      ensures numOversamples == old(numOversamples)
      ensures transpose == (a.rows > a.cols)
      ensures fresh(rsvd0) && fresh(rsvd1) && fresh(rsvd2)
      ensures var r := FitResult(lib, a, numComponents, niters, numOversamples);
        Snapshot(rsvd0) == r.u && rsvd1[..] == r.s && Snapshot(rsvd2) == r.v
    {
      transpose := a.rows > a.cols;
      Allocate(a.rows, a.cols);
      var f := Projected(a, lib);
      if transpose {
        CopyResults(f.v, f.s, f.w);
      } else {
        CopyResults(f.w, f.s, f.v);
      }
      ColumnsDoneAll(Snapshot(rsvd0), if transpose then f.v else f.w);
      ColumnsDoneAll(Snapshot(rsvd2), if transpose then f.w else f.v);
    }

    /** `rsvd[0]`, `rsvd[1]` and `rsvd[2]` become zero matrices of `rows x k`, `k` and `cols x k`. */
    method Allocate(rows: nat, cols: nat)
      modifies this
      ensures numComponents == old(numComponents) && niters == old(niters)
      ensures numOversamples == old(numOversamples) && transpose == old(transpose)
      ensures fresh(rsvd0) && fresh(rsvd1) && fresh(rsvd2)
      ensures rsvd1.Length == numComponents && rsvd0 != rsvd2
      ensures Snapshot(rsvd0) == Zeros(rows, numComponents) && Snapshot(rsvd2) == Zeros(cols, numComponents)
    {
      rsvd0 := new Double[rows, numComponents]((_, _) => Num(0.0));
      rsvd1 := new Double[numComponents](_ => Num(0.0));
      rsvd2 := new Double[cols, numComponents]((_, _) => Num(0.0));
      Extensionality(Snapshot(rsvd0), Zeros(rows, numComponents));
      Extensionality(Snapshot(rsvd2), Zeros(cols, numComponents));
    }

    /** The working matrix, its range basis Q, the full SVD of `Qᵗ · A` and `W = Q · U_B`. */
    method Projected(a: Matrix, lib: Jblas) returns (f: Projection)
      requires Shapes(lib) && numComponents <= Min(a.rows, a.cols)
      ensures f == Project(lib, a, numComponents, niters, numOversamples)
    {
      var A := a;
      if a.rows > a.cols {
        A := Transpose(A);
      }
      var Q := RangeOf(a, A, lib);
      var svd := lib.fullSVD(MatMul(Transpose(Q), A));
      f := Projection(MatMul(Q, svd.u), svd.s, svd.v);
    }

    /** The sketch `randn`, `niters` rounds of `Q := L(lu(C · Q))`, then `Q := Q(qr(C · Q))`. */
    method RangeOf(a: Matrix, A: Matrix, lib: Jblas) returns (Q: Matrix)
      requires Shapes(lib) && A == Working(a)
      ensures Q == RangeBasis(lib, a, numComponents, niters, numOversamples)
    {
      var C := MatMul(A, Transpose(A));
      ghost var q0 := lib.randn(A.rows, Min(A.rows, numComponents + numOversamples));
      Q := lib.randn(A.rows, Min(A.rows, numComponents + numOversamples));
      var i := 0;
      while i < niters
        invariant 0 <= i && (niters >= 0 ==> i <= niters) && (niters < 0 ==> i == 0)
        invariant Q == PowerIterate(lib, C, q0, i)
      {
        Q := MatMul(C, Q);
        Q := lib.luL(Q);
        i := i + 1;
      }
      Q := lib.qrQ(MatMul(C, Q));
    }

    /** The result loop: for `i < k`, column i of `first` and of `last`, and the i-th value of `s`. */
    method CopyResults(first: Matrix, s: seq<Double>, last: Matrix)
      requires rsvd0 != rsvd2
      requires first.rows == rsvd0.Length0 && rsvd0.Length1 <= first.cols
      requires last.rows == rsvd2.Length0 && rsvd2.Length1 <= last.cols
      requires rsvd0.Length1 == numComponents && rsvd1.Length == numComponents && rsvd2.Length1 == numComponents
      requires numComponents <= |s|
      requires Snapshot(rsvd0) == Zeros(rsvd0.Length0, numComponents)
      requires Snapshot(rsvd2) == Zeros(rsvd2.Length0, numComponents)
      modifies rsvd0, rsvd1, rsvd2
      ensures ColumnsDone(Snapshot(rsvd0), first, numComponents)
      ensures rsvd1[..] == s[..numComponents]
      ensures ColumnsDone(Snapshot(rsvd2), last, numComponents)
    {
      for i := 0 to numComponents
        invariant ColumnsDone(Snapshot(rsvd0), first, i)
        invariant forall j :: 0 <= j < i ==> rsvd1[j] == s[j]
        invariant ColumnsDone(Snapshot(rsvd2), last, i)
      {
        ghost var m0, m2 := Snapshot(rsvd0), Snapshot(rsvd2);
        PutColumn(rsvd0, i, Column(first, i));
        rsvd1[i] := s[i];
        PutColumn(rsvd2, i, Column(last, i));
        ColumnsDoneStep(m0, first, i);
        ColumnsDoneStep(m2, last, i);
      }
    }
  }
}
