/**
 * The simplified pipeline object: a coverage matrix with its column (sample) and row (region)
 * names, checked against each other on construction, and the SVD kept as the singular values
 * (a diagonal matrix) and a copy of Vᵗ. The decomposition is a parameter (`Ejml.SvdFactors`).
 */
module SimpleNgspca {
  import opened Doubles
  import opened Matrices
  import opened Failures
  import Ejml
  import MatrixOperations

  class SimpleNGSPCA {
    const m: array2<Double>
    const colNames: seq<string>
    const rowNames: seq<string>
    /** The diagonal of the `DiagonalMatrix` w: the singular values. */
    var w: seq<Double>
    /** The `RealMatrix` v: a copy of Vᵗ. */
    var v: array2<Double>

    /** The object the constructor builds once its dimension checks have passed. */
    constructor (m: array2<Double>, colNames: seq<string>, rowNames: seq<string>)
      ensures this.m == m && this.colNames == colNames && this.rowNames == rowNames
      ensures w == [] && v.Length0 == 0 && v.Length1 == 0
    {
      this.m := m;
      this.colNames := colNames;
      this.rowNames := rowNames;
      w := [];
      v := new Double[0, 0];
    }

    /**
     * The constructor with its checks: the column count must equal the number of column names,
     * then the row count the number of row names.
     */
    static method Create(m: array2<Double>, colNames: seq<string>, rowNames: seq<string>)
      returns (r: Result<SimpleNGSPCA>)
      ensures r.Success? <==> m.Length1 == |colNames| && m.Length0 == |rowNames|
      ensures m.Length1 != |colNames| ==> r == Failure(MismatchedColumnLengths)
      ensures m.Length1 == |colNames| && m.Length0 != |rowNames| ==> r == Failure(MismatchedRowLengths)
      ensures r.Success? ==>
        fresh(r.value) && r.value.m == m && r.value.colNames == colNames && r.value.rowNames == rowNames
    {
      if m.Length1 != |colNames| {
        return Failure(MismatchedColumnLengths);
      }
      if m.Length0 != |rowNames| {
        return Failure(MismatchedRowLengths);
      }
      var s := new SimpleNGSPCA(m, colNames, rowNames);
      return Success(s);
    }

    /**
     * Decomposes an EJML copy of `m`, keeps the first `min(W.rows, W.cols)` diagonal entries of
     * W as the singular values and copies Vᵗ entry by entry into a fresh matrix.
     */
    method ComputeSVD(decompose: Matrix -> Ejml.SvdFactors)
      requires Ejml.NonCompactShapes(Snapshot(m), decompose(Snapshot(m)))
      modifies this
      ensures var f := decompose(old(Snapshot(m)));
        |w| == Min(f.w.rows, f.w.cols) && w == Ejml.Diagonal(f.w, |w|) &&
        fresh(v) && Snapshot(v) == f.vt
    {
      var a := MatrixOperations.ToDenseMatrix64F(m);
      var f := decompose(Snapshot(a));
      var tv := f.vt;
      var tmpW := f.w;
      var numSingular := Min(tmpW.rows, tmpW.cols);
      var singularValues := new Double[numSingular];
      for i := 0 to numSingular
        invariant forall j :: 0 <= j < i ==> singularValues[j] == tmpW.at[j][j]
      {
        singularValues[i] := tmpW.at[i][i];
      }
      w := singularValues[..];
      v := CopyOf(tv);
    }
  }

  /** `createRealMatrix(rows, cols)` and `addToEntry(row, col, tv.get(row, col))` for every entry. */
  method CopyOf(tv: Matrix) returns (v: array2<Double>)
    ensures fresh(v) && Snapshot(v) == tv
  {
    v := new Double[tv.rows, tv.cols]((_, _) => Num(0.0));
    for row := 0 to tv.rows
      invariant forall r, c :: 0 <= r < tv.rows && 0 <= c < tv.cols ==>
        v[r, c] == if r < row then tv.at[r][c] else Num(0.0)
    {
      for col := 0 to tv.cols
        invariant forall r, c :: 0 <= r < tv.rows && 0 <= c < tv.cols ==>
          v[r, c] == if r < row || (r == row && c < col) then tv.at[r][c] else Num(0.0)
      {
        v[row, col] := Add(v[row, col], tv.at[row][col]);
      }
    }
    Extensionality(Snapshot(v), tv);
  }
}
