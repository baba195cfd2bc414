/**
 * Matrix values. The mutable matrices of the pipeline (Commons Math RealMatrix, EJML
 * DenseMatrix64F) are `array2<Double>`; `Matrix` is the value a library call returns or the
 * contents of an array at one moment.
 */
module Matrices {
  import opened Doubles

  datatype Mat = Mat(rows: nat, cols: nat, at: seq<seq<Double>>)

  /** The smaller of two dimensions. */
  function Min(a: nat, b: nat): nat {
    if a <= b then a else b
  }

  /** `at` holds `rows` rows of `cols` entries each. */
  predicate Valid(m: Mat) {
    |m.at| == m.rows && forall i :: 0 <= i < |m.at| ==> |m.at[i]| == m.cols
  }

  type Matrix = m: Mat | Valid(m) witness Mat(0, 0, [])

  /** The contents of an array at this moment. */
  function Snapshot(a: array2<Double>): (m: Matrix)
    reads a
    ensures m.rows == a.Length0 && m.cols == a.Length1
    ensures forall r, c :: 0 <= r < a.Length0 && 0 <= c < a.Length1 ==> m.at[r][c] == a[r, c]
  {
    Mat(a.Length0, a.Length1,
        seq(a.Length0, r requires 0 <= r < a.Length0 reads a =>
          seq(a.Length1, c requires 0 <= c < a.Length1 reads a => a[r, c])))
  }

  /** Two matrices of one shape with the same entries are equal. */
  lemma Extensionality(a: Matrix, b: Matrix)
    requires a.rows == b.rows && a.cols == b.cols
    requires forall r, c :: 0 <= r < a.rows && 0 <= c < a.cols ==> a.at[r][c] == b.at[r][c]
    ensures a == b
  {
    forall r | 0 <= r < a.rows ensures a.at[r] == b.at[r] {
      assert forall c :: 0 <= c < a.cols ==> a.at[r][c] == b.at[r][c];
    }
  }

  /** Column `c` of `m`, top to bottom. */
  function Column(m: Matrix, c: nat): (col: seq<Double>)
    requires c < m.cols
    ensures |col| == m.rows
    ensures forall r :: 0 <= r < m.rows ==> col[r] == m.at[r][c]
  {
    seq(m.rows, r requires 0 <= r < m.rows => m.at[r][c])
  }

  predicate HasNaN(m: Matrix) {
    exists r, c :: 0 <= r < m.rows && 0 <= c < m.cols && m.at[r][c].NaN?
  }

  /** The transpose of `m`. */
  function Transpose(m: Matrix): (t: Matrix)
    ensures t.rows == m.cols && t.cols == m.rows
    ensures forall r, c :: 0 <= r < m.cols && 0 <= c < m.rows ==> t.at[r][c] == m.at[c][r]
  {
    Mat(m.cols, m.rows,
        seq(m.cols, r requires 0 <= r < m.cols => seq(m.rows, c requires 0 <= c < m.rows => m.at[c][r])))
  }

  lemma TransposeInvolution(m: Matrix)
    ensures Transpose(Transpose(m)) == m
  {
    Extensionality(Transpose(Transpose(m)), m);
  }

  /** The sum of `a[i] * b[i]` over `i < n`, accumulated from the left starting at 0. */
  function Dot(a: seq<Double>, b: seq<Double>, n: nat): (d: Double)
    requires n <= |a| && n <= |b|
    ensures d.NaN? <==> exists i :: 0 <= i < n && (a[i].NaN? || b[i].NaN?)
  {
    if n == 0 then Num(0.0) else Add(Dot(a, b, n - 1), Mul(a[n - 1], b[n - 1]))
  }

  /** The product of an `m.rows x n` and an `n x p.cols` matrix. */
  function MatMul(m: Matrix, p: Matrix): (q: Matrix)
    requires m.cols == p.rows
    ensures q.rows == m.rows && q.cols == p.cols
    ensures forall r, c :: 0 <= r < m.rows && 0 <= c < p.cols ==>
      q.at[r][c] == Dot(m.at[r], Column(p, c), m.cols)
  {
    Mat(m.rows, p.cols,
        seq(m.rows, r requires 0 <= r < m.rows =>
          seq(p.cols, c requires 0 <= c < p.cols => Dot(m.at[r], Column(p, c), m.cols))))
  }

  /** The matrix made of the first `k` columns of `m`. */
  function FirstColumns(m: Matrix, k: nat): (t: Matrix)
    requires k <= m.cols
    ensures t.rows == m.rows && t.cols == k
    ensures forall r, c :: 0 <= r < m.rows && 0 <= c < k ==> t.at[r][c] == m.at[r][c]
  {
    Mat(m.rows, k, seq(m.rows, r requires 0 <= r < m.rows => m.at[r][..k]))
  }

  /** The matrix made of the first `k` rows of `m`. */
  function FirstRows(m: Matrix, k: nat): (t: Matrix)
    requires k <= m.rows
    ensures t.rows == k && t.cols == m.cols
    ensures forall r :: 0 <= r < k ==> t.at[r] == m.at[r]
  {
    Mat(k, m.cols, m.at[..k])
  }

  /** The `rows x cols` matrix of zeros, the state of a freshly allocated Java matrix. */
  function Zeros(rows: nat, cols: nat): (z: Matrix)
    ensures z.rows == rows && z.cols == cols
    ensures forall r, c :: 0 <= r < rows && 0 <= c < cols ==> z.at[r][c] == Num(0.0)
  {
    Mat(rows, cols, seq(rows, r => seq(cols, c => Num(0.0))))
  }

  /** `m` with row `r` replaced by `row`. */
  function WithRow(m: Matrix, r: nat, row: seq<Double>): (z: Matrix)
    requires r < m.rows && |row| == m.cols
    ensures z.rows == m.rows && z.cols == m.cols
    ensures z.at[r] == row && forall i :: 0 <= i < m.rows && i != r ==> z.at[i] == m.at[i]
  {
    Mat(m.rows, m.cols, m.at[r := row])
  }

  /** `m` with the top |vals| entries of column `col` replaced by `vals`. */
  function WithColumn(m: Matrix, col: nat, vals: seq<Double>): (z: Matrix)
    requires col < m.cols && |vals| <= m.rows
    ensures z.rows == m.rows && z.cols == m.cols
    ensures forall r, c :: 0 <= r < m.rows && 0 <= c < m.cols ==>
      z.at[r][c] == if c == col && r < |vals| then vals[r] else m.at[r][c]
  {
    Mat(m.rows, m.cols,
        seq(m.rows, r requires 0 <= r < m.rows =>
          seq(m.cols, c requires 0 <= c < m.cols =>
            if c == col && r < |vals| then vals[r] else m.at[r][c])))
  }

  /** The rows of `a` before `r0` hold those of `z`, the others still those of `m`. */
  ghost predicate RowsReplaced(a: array2<Double>, m: Matrix, z: Matrix, r0: nat)
    reads a
  {
    z.rows == m.rows == a.Length0 && z.cols == m.cols == a.Length1 &&
    forall r, c :: 0 <= r < a.Length0 && 0 <= c < a.Length1 ==>
      a[r, c] == if r < r0 then z.at[r][c] else m.at[r][c]
  }

  /** A fresh copy of column `column`, summed into a zero array as `tmp[row] += entry`. */
  method CopyColumn(dm: array2<Double>, column: nat) returns (tmp: array<Double>)
    requires column < dm.Length1
    ensures fresh(tmp) && tmp.Length == dm.Length0
    ensures forall i :: 0 <= i < dm.Length0 ==> tmp[i] == dm[i, column]
  {
    tmp := new Double[dm.Length0](_ => Num(0.0));
    var row := 0;
    while row < dm.Length0
      invariant 0 <= row <= dm.Length0
      invariant forall i :: 0 <= i < row ==> tmp[i] == dm[i, column]
      invariant forall i :: row <= i < dm.Length0 ==> tmp[i] == Num(0.0)
      modifies tmp
    {
      tmp[row] := Add(tmp[row], dm[row, column]);
      row := row + 1;
    }
  }

  /** A fresh copy of row `row` (`getRow` and the `tmp[col] = getEntry(row, col)` loop). */
  method CopyRow(dm: array2<Double>, row: nat) returns (tmp: array<Double>)
    requires row < dm.Length0
    ensures fresh(tmp) && tmp.Length == dm.Length1
    ensures forall i :: 0 <= i < dm.Length1 ==> tmp[i] == dm[row, i]
  {
    tmp := new Double[dm.Length1];
    var col := 0;
    while col < dm.Length1
      invariant 0 <= col <= dm.Length1
      invariant forall i :: 0 <= i < col ==> tmp[i] == dm[row, i]
      modifies tmp
    {
      tmp[col] := dm[row, col];
      col := col + 1;
    }
  }

  /** jblas `putColumn(c, col)`: column `c` of `a` becomes `col`, entry by entry. */
  method PutColumn(a: array2<Double>, c: nat, col: seq<Double>)
    requires c < a.Length1 && |col| == a.Length0
    modifies a
    ensures Snapshot(a) == WithColumn(old(Snapshot(a)), c, col)
  {
    for i := 0 to a.Length0
      invariant forall r, j :: 0 <= r < a.Length0 && 0 <= j < a.Length1 ==>
        a[r, j] == if j == c && r < i then col[r] else old(a[r, j])
    {
      a[i, c] := col[i];
    }
    Extensionality(Snapshot(a), WithColumn(old(Snapshot(a)), c, col));
  }
}
