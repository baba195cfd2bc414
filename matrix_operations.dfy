/**
 * The older, genvisis-based normalisation: fold change against column medians (non-positive
 * entries become 0), row centring, and column standardisation, chosen by a scale method.
 * The genvisis statistics and log2 are parameters.
 */
module MatrixOperations {
  import opened Doubles
  import opened Matrices
  import Medians
  import N = NormalizationOperations

  /** ArrayUtils.median(·, true), ArrayUtils.mean(·, true), ArrayUtils.stdev(·, true), Maths.log2. */
  datatype Genvisis = Genvisis(
    median: seq<Double> -> Double,
    mean: seq<Double> -> Double,
    stdev: seq<Double> -> Double,
    log2: Double -> Double)

  /** SCALE_METHOD. */
  datatype ScaleMethod = FcMedian | CenterScaleColumn | CenterScaleColumnScaleMarker

  /**
   * An EJML copy of a Commons Math matrix: a fresh matrix of the same shape, made by adding
   * every entry into a zero matrix.
   */
  method ToDenseMatrix64F(m: array2<Double>) returns (dm: array2<Double>)
    ensures fresh(dm)
    ensures Snapshot(dm) == Snapshot(m)
  {
    dm := new Double[m.Length0, m.Length1]((_, _) => Num(0.0));
    var row := 0;
    while row < m.Length0
      invariant 0 <= row <= m.Length0
      invariant forall r, c :: 0 <= r < m.Length0 && 0 <= c < m.Length1 ==>
        dm[r, c] == if r < row then m[r, c] else Num(0.0)
      modifies dm
    {
      var column := 0;
      while column < m.Length1
        invariant 0 <= column <= m.Length1
        invariant forall r, c :: 0 <= r < m.Length0 && 0 <= c < m.Length1 ==>
          dm[r, c] == if r < row || (r == row && c < column) then m[r, c] else Num(0.0)
        modifies dm
      {
        dm[row, column] := Add(dm[row, column], m[row, column]);
        column := column + 1;
      }
      row := row + 1;
    }
    Extensionality(Snapshot(dm), Snapshot(m));
  }

  /** `entry > 0` on a double: false for NaN. */
  predicate Positive(x: Double) {
    x.Num? && x.v > 0.0
  }

  /** One statistic of every column of `m`. */
  function ColumnStats(m: Matrix, stat: seq<Double> -> Double): (s: seq<Double>)
    ensures |s| == m.cols
    ensures forall c :: 0 <= c < m.cols ==> s[c] == stat(Column(m, c))
  {
    seq(m.cols, c requires 0 <= c < m.cols => stat(Column(m, c)))
  }

  /** The fold change of the older variant: positive entries become log2(entry / median). */
  function FoldChanged(g: Genvisis, m: Matrix): (f: Matrix)
    ensures f.rows == m.rows && f.cols == m.cols
  {
    var meds := ColumnStats(m, g.median);
    Mat(m.rows, m.cols, seq(m.rows, r requires 0 <= r < m.rows => FoldChangedRow(g, m.at[r], meds)))
  }

  function FoldChangedRow(g: Genvisis, row: seq<Double>, meds: seq<Double>): (z: seq<Double>)
    requires |row| == |meds|
    ensures |z| == |row|
  {
    seq(|row|, c requires 0 <= c < |row| =>
      if Positive(row[c]) then g.log2(Div(row[c], meds[c])) else Num(0.0))
  }

  /** Every row minus its genvisis median. */
  function Centered(g: Genvisis, m: Matrix): (z: Matrix)
    ensures z.rows == m.rows && z.cols == m.cols
  {
    Mat(m.rows, m.cols,
        seq(m.rows, r requires 0 <= r < m.rows =>
          seq(m.cols, c requires 0 <= c < m.cols => Sub(m.at[r][c], g.median(m.at[r])))))
  }

  /** Every entry standardised by its column's mean and standard deviation. */
  function ScaledColumns(g: Genvisis, m: Matrix): (z: Matrix)
    ensures z.rows == m.rows && z.cols == m.cols
  {
    var means := ColumnStats(m, g.mean);
    var sds := ColumnStats(m, g.stdev);
    Mat(m.rows, m.cols,
        seq(m.rows, r requires 0 <= r < m.rows =>
          seq(m.cols, c requires 0 <= c < m.cols => Div(Sub(m.at[r][c], means[c]), sds[c]))))
  }

  /** The matrix `scaleByMethod` leaves behind. */
  function Scaled(scale: ScaleMethod, g: Genvisis, m: Matrix): (z: Matrix)
    ensures z.rows == m.rows && z.cols == m.cols
  {
    match scale
    case CenterScaleColumn => ScaledColumns(g, m)
    case CenterScaleColumnScaleMarker => Centered(g, ScaledColumns(g, m))
    case FcMedian => Centered(g, FoldChanged(g, m))
  }

  /**
   * With the concrete NaN-removed median and log2, both fold changes agree on a matrix whose
   * entries are all at least MIN_DEPTH: then neither the zeroing nor the flooring applies.
   */
  lemma FoldChangeAgrees(g: Genvisis, log2: real -> real, m: Matrix)
    requires forall s :: g.median(s) == Medians.Median(s)
    requires forall x :: g.log2(x) == Log2(log2, x)
    requires forall r, c :: 0 <= r < m.rows && 0 <= c < m.cols ==>
      m.at[r][c].Num? && m.at[r][c].v >= N.MIN_DEPTH
    ensures FoldChanged(g, m) == N.FoldChanged(log2, m)
  {
    var meds := ColumnStats(m, g.median);
    var floored := N.ColumnMedians(m);
    forall c | 0 <= c < m.cols && m.rows > 0 ensures meds[c] == floored[c] {
      var col := Column(m, c);
      assert col[0].Num?;
      Medians.MedianBounds(col);
      var i :| 0 <= i < |col| && col[i].Num? && col[i].v <= Medians.Median(col).v;
      assert col[i].v >= N.MIN_DEPTH;
    }
    var f := FoldChanged(g, m);
    var h := N.FoldChanged(log2, m);
    forall r, c | 0 <= r < m.rows && 0 <= c < m.cols ensures f.at[r][c] == h.at[r][c] {
      assert meds[c] == floored[c];
    }
    Extensionality(f, h);
  }

  /** With the concrete NaN-removed median, both row centrings agree. */
  lemma CenteredAgrees(g: Genvisis, m: Matrix)
    requires forall s :: g.median(s) == Medians.Median(s)
    ensures Centered(g, m) == N.Centered(m)
  {
    var z := Centered(g, m);
    var y := N.Centered(m);
    forall r, c | 0 <= r < m.rows && 0 <= c < m.cols ensures z.at[r][c] == y.at[r][c] {
      assert y.at[r] == N.CenteredRow(m.at[r]);
    }
    Extensionality(z, y);
  }

  /**
   * FC_MEDIAN with the concrete median leaves every row of a matrix with a column and no
   * NaN after the fold change on median 0.
   */
  lemma FcMedianRowsMedianZero(g: Genvisis, m: Matrix)
    requires forall s :: g.median(s) == Medians.Median(s)
    requires m.cols > 0 && !HasNaN(FoldChanged(g, m))
    ensures forall r :: 0 <= r < m.rows ==> Medians.Median(Scaled(FcMedian, g, m).at[r]) == Num(0.0)
  {
    CenteredAgrees(g, FoldChanged(g, m));
    N.CenteredRowsMedianZero(FoldChanged(g, m));
  }

  /**
   * Standardisation is undone by multiplying by the column's standard deviation and adding
   * its mean, wherever the entry and both statistics are numbers and the deviation is not 0.
   */
  lemma UnscaleRecovers(g: Genvisis, m: Matrix, r: nat, c: nat)
    requires r < m.rows && c < m.cols
    requires m.at[r][c].Num?
    requires g.mean(Column(m, c)).Num?
    requires g.stdev(Column(m, c)).Num? && g.stdev(Column(m, c)).v != 0.0
    ensures Add(Mul(ScaledColumns(g, m).at[r][c], g.stdev(Column(m, c))), g.mean(Column(m, c))) == m.at[r][c]
  {
    var mean := g.mean(Column(m, c));
    var sd := g.stdev(Column(m, c));
    var z := Div(Sub(m.at[r][c], mean), sd);
    assert ScaledColumns(g, m).at[r][c] == z;
    assert z.v * sd.v == m.at[r][c].v - mean.v;
  }

  /** The genvisis statistic `stat` of every column of `m`, each from a fresh copy of it. */
  method ColumnStatistics(m: array2<Double>, stat: seq<Double> -> Double) returns (stats: array<Double>)
    ensures fresh(stats)
    ensures stats[..] == ColumnStats(Snapshot(m), stat)
  {
    ghost var m0 := Snapshot(m);
    stats := new Double[m.Length1];
    var column := 0;
    while column < m.Length1
      invariant 0 <= column <= m.Length1
      invariant forall c :: 0 <= c < column ==> stats[c] == stat(Column(m0, c))
      modifies stats
    {
      var tmp := CopyColumn(m, column);
      assert tmp[..] == Column(m0, column);
      stats[column] := stat(tmp[..]);
      column := column + 1;
    }
  }

  /** Overwrites row `row` of `m` with its fold change against `medians`. */
  method FoldChangeRow(g: Genvisis, m: array2<Double>, medians: array<Double>, row: nat,
                       ghost m0: Matrix, ghost f: Matrix)
    requires row < m.Length0 && medians.Length == m.Length1
    requires RowsReplaced(m, m0, f, row)
    requires f.at[row] == FoldChangedRow(g, m0.at[row], medians[..])
    modifies m
    ensures RowsReplaced(m, m0, f, row + 1)
  {
    var column := 0;
    while column < m.Length1
      invariant 0 <= column <= m.Length1
      invariant forall r, c :: 0 <= r < m.Length0 && 0 <= c < m.Length1 ==>
        m[r, c] == if r < row || (r == row && c < column) then f.at[r][c] else m0.at[r][c]
      modifies m
    {
      var entry := m[row, column];
      if Positive(entry) {
        m[row, column] := g.log2(Div(entry, medians[column]));
      } else {
        m[row, column] := Num(0.0);
      }
      column := column + 1;
    }
  }

  /** Fold change against the column medians, then row centring. */
  method FoldChangeAndCenter(g: Genvisis, m: array2<Double>)
    modifies m
    ensures Snapshot(m) == Centered(g, FoldChanged(g, old(Snapshot(m))))
  {
    ghost var m0 := Snapshot(m);
    ghost var f := FoldChanged(g, m0);
    var medians := ColumnStatistics(m, g.median);
    var row := 0;
    while row < m.Length0
      invariant 0 <= row <= m.Length0
      invariant RowsReplaced(m, m0, f, row)
      invariant medians[..] == ColumnStats(m0, g.median)
      modifies m
    {
      FoldChangeRow(g, m, medians, row, m0, f);
      row := row + 1;
    }
    Extensionality(Snapshot(m), f);
    CenterRowsToMedian(g, m);
  }

  /** Centres row `row` of `m` on its genvisis median, taken from a copy of the row. */
  method CenterRow(g: Genvisis, m: array2<Double>, row: nat, ghost m0: Matrix, ghost z: Matrix)
    requires row < m.Length0
    requires RowsReplaced(m, m0, z, row)
    requires forall c :: 0 <= c < m.Length1 ==> z.at[row][c] == Sub(m0.at[row][c], g.median(m0.at[row]))
    modifies m
    ensures RowsReplaced(m, m0, z, row + 1)
  {
    var tmp := CopyRow(m, row);
    assert tmp[..] == m0.at[row];
    var median := g.median(tmp[..]);
    var column := 0;
    while column < m.Length1
      invariant 0 <= column <= m.Length1
      invariant forall r, c :: 0 <= r < m.Length0 && 0 <= c < m.Length1 ==>
        m[r, c] == if r < row || (r == row && c < column) then z.at[r][c] else m0.at[r][c]
      invariant forall c :: 0 <= c < m.Length1 ==> tmp[c] == m0.at[row][c]
      modifies m
    {
      m[row, column] := Sub(tmp[column], median);
      column := column + 1;
    }
  }

  /** Centres every row of `m` on its genvisis median. */
  method CenterRowsToMedian(g: Genvisis, m: array2<Double>)
    modifies m
    ensures Snapshot(m) == Centered(g, old(Snapshot(m)))
  {
    ghost var m0 := Snapshot(m);
    ghost var z := Centered(g, m0);
    var row := 0;
    while row < m.Length0
      invariant 0 <= row <= m.Length0
      invariant RowsReplaced(m, m0, z, row)
      modifies m
    {
      CenterRow(g, m, row, m0, z);
      row := row + 1;
    }
    Extensionality(Snapshot(m), z);
  }

  /** Standardises row `row` of `m` by the column means and standard deviations. */
  method ScaleRow(m: array2<Double>, means: array<Double>, sds: array<Double>, row: nat,
                  ghost m0: Matrix, ghost z: Matrix)
    requires row < m.Length0 && means.Length == m.Length1 && sds.Length == m.Length1
    requires RowsReplaced(m, m0, z, row)
    requires forall c :: 0 <= c < m.Length1 ==> z.at[row][c] == Div(Sub(m0.at[row][c], means[c]), sds[c])
    modifies m
    ensures RowsReplaced(m, m0, z, row + 1)
  {
    var column := 0;
    while column < m.Length1
      invariant 0 <= column <= m.Length1
      invariant forall r, c :: 0 <= r < m.Length0 && 0 <= c < m.Length1 ==>
        m[r, c] == if r < row || (r == row && c < column) then z.at[r][c] else m0.at[r][c]
      modifies m
    {
      var standard := Sub(m[row, column], means[column]);
      standard := Div(standard, sds[column]);
      m[row, column] := standard;
      column := column + 1;
    }
  }

  /** Scales every column to mean 0 and standard deviation 1 (by the genvisis statistics). */
  method ScaleAndCenterColumns(g: Genvisis, m: array2<Double>)
    modifies m
    ensures Snapshot(m) == ScaledColumns(g, old(Snapshot(m)))
  {
    ghost var m0 := Snapshot(m);
    ghost var z := ScaledColumns(g, m0);
    var sds := new Double[m.Length1];
    var mean := new Double[m.Length1];
    var column := 0;
    while column < m.Length1
      invariant 0 <= column <= m.Length1
      invariant forall c :: 0 <= c < column ==> mean[c] == g.mean(Column(m0, c))
      invariant forall c :: 0 <= c < column ==> sds[c] == g.stdev(Column(m0, c))
      modifies mean, sds
    {
      var tmp := CopyColumn(m, column);
      assert tmp[..] == Column(m0, column);
      mean[column] := g.mean(tmp[..]);
      sds[column] := g.stdev(tmp[..]);
      column := column + 1;
    }
    var row := 0;
    while row < m.Length0
      invariant 0 <= row <= m.Length0
      invariant RowsReplaced(m, m0, z, row)
      invariant forall c :: 0 <= c < m.Length1 ==> mean[c] == g.mean(Column(m0, c))
      invariant forall c :: 0 <= c < m.Length1 ==> sds[c] == g.stdev(Column(m0, c))
      modifies m
    {
      ScaleRow(m, mean, sds, row, m0, z);
      row := row + 1;
    }
    Extensionality(Snapshot(m), z);
  }

  /** Applies the normalisation `scale` names. */
  method ScaleByMethod(scale: ScaleMethod, g: Genvisis, m: array2<Double>)
    modifies m
    ensures Snapshot(m) == Scaled(scale, g, old(Snapshot(m)))
  {
    match scale
    case CenterScaleColumn =>
      ScaleAndCenterColumns(g, m);
    case CenterScaleColumnScaleMarker =>
      ScaleAndCenterColumns(g, m);
      CenterRowsToMedian(g, m);
    case FcMedian =>
      FoldChangeAndCenter(g, m);
  }
}
