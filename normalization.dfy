/**
 * Normalisation of a bins x samples coverage matrix before PCA: every column is turned into
 * the log2 fold change of its entries against the column median, then every row is centred on
 * its own median.
 */
module NormalizationOperations {
  import opened Doubles
  import opened Medians
  import opened Matrices
  import opened Failures

  /** Half the lowest depth mosdepth reports; the floor of every entry and every column median. */
  const MIN_DEPTH: real := 0.005

  /** A column's median, floored at MIN_DEPTH by Math.max (which keeps NaN). */
  function FlooredMedian(col: seq<Double>): (m: Double)
    ensures m.NaN? <==> forall i :: 0 <= i < |col| ==> col[i].NaN?
    ensures m.Num? ==> m.v >= MIN_DEPTH && m.v >= Median(col).v
    ensures m.Num? && Median(col).v >= MIN_DEPTH ==> m == Median(col)
  {
    Max(Median(col), Num(MIN_DEPTH))
  }

  /** The argument handed to log2: the floored entry over the floored column median. */
  function Ratio(entry: Double, median: Double): Double {
    Div(Max(entry, Num(MIN_DEPTH)), median)
  }

  /** The normalised value of one entry. */
  function Standard(log2: real -> real, entry: Double, median: Double): Double {
    Log2(log2, Ratio(entry, median))
  }

  /** With a floored median, log2 is only ever applied to a strictly positive number. */
  lemma RatioPositive(entry: Double, median: Double)
    requires entry.Num? && median.Num? && median.v >= MIN_DEPTH
    ensures Ratio(entry, median).Num? && Ratio(entry, median).v > 0.0
  {
    var x := Max(entry, Num(MIN_DEPTH));
    var q := Ratio(entry, median);
    assert x.v >= MIN_DEPTH;
    assert q.v * median.v == x.v;
  }

  /** With a floored median the normalised value is NaN exactly when an input is. */
  lemma StandardNaN(log2: real -> real, entry: Double, median: Double)
    requires median.NaN? || median.v >= MIN_DEPTH
    ensures Standard(log2, entry, median).NaN? <==> entry.NaN? || median.NaN?
    ensures Standard(log2, entry, median).Num? ==>
      Standard(log2, entry, median).v == log2(Ratio(entry, median).v)
  {
    if entry.Num? && median.Num? {
      RatioPositive(entry, median);
    }
  }

  /** The floored medians of all columns of `m`, computed from `m` itself. */
  function ColumnMedians(m: Matrix): (meds: seq<Double>)
    ensures |meds| == m.cols
    ensures forall c :: 0 <= c < m.cols ==> meds[c] == FlooredMedian(Column(m, c))
  {
    seq(m.cols, c requires 0 <= c < m.cols => FlooredMedian(Column(m, c)))
  }

  /** The fold-change matrix: every entry normalised against its original column's median. */
  function FoldChanged(log2: real -> real, m: Matrix): (f: Matrix)
    ensures f.rows == m.rows && f.cols == m.cols
    ensures forall r, c :: 0 <= r < m.rows && 0 <= c < m.cols ==>
      f.at[r][c] == Standard(log2, m.at[r][c], ColumnMedians(m)[c])
  {
    var meds := ColumnMedians(m);
    Mat(m.rows, m.cols,
        seq(m.rows, r requires 0 <= r < m.rows =>
          seq(m.cols, c requires 0 <= c < m.cols => Standard(log2, m.at[r][c], meds[c]))))
  }

  /** The fold change produces a NaN exactly when the input matrix holds one. */
  lemma FoldChangedNaN(log2: real -> real, m: Matrix)
    ensures HasNaN(FoldChanged(log2, m)) <==> HasNaN(m)
  {
    var f := FoldChanged(log2, m);
    var meds := ColumnMedians(m);
    if HasNaN(f) {
      var r, c :| 0 <= r < m.rows && 0 <= c < m.cols && f.at[r][c].NaN?;
      StandardNaN(log2, m.at[r][c], meds[c]);
    }
    if HasNaN(m) {
      var r, c :| 0 <= r < m.rows && 0 <= c < m.cols && m.at[r][c].NaN?;
      StandardNaN(log2, m.at[r][c], meds[c]);
      assert f.at[r][c].NaN?;
    }
  }

  /** A row minus its own median (NaN everywhere when the row has no number). */
  function CenteredRow(row: seq<Double>): (z: seq<Double>)
    ensures |z| == |row|
    ensures forall i :: 0 <= i < |row| ==> z[i] == Sub(row[i], Median(row))
  {
    seq(|row|, i requires 0 <= i < |row| => Sub(row[i], Median(row)))
  }

  /** A row holding a number is centred on median 0. */
  lemma CenterRowMedianZero(row: seq<Double>)
    requires exists i :: 0 <= i < |row| && row[i].Num?
    ensures Median(CenteredRow(row)) == Num(0.0)
  {
    var m := Median(row);
    forall i | 0 <= i < |row| ensures CenteredRow(row)[i] == SubAll(row, m.v)[i] {
      SubAllAt(row, m.v, i);
    }
    assert CenteredRow(row) == SubAll(row, m.v);
    CentredMedianIsZero(row);
  }

  /** Every row of `m` minus that row's median. */
  function Centered(m: Matrix): (z: Matrix)
    ensures z.rows == m.rows && z.cols == m.cols
    ensures forall r :: 0 <= r < m.rows ==> z.at[r] == CenteredRow(m.at[r])
  {
    Mat(m.rows, m.cols, seq(m.rows, r requires 0 <= r < m.rows => CenteredRow(m.at[r])))
  }

  /**
   * Centring a matrix without NaN and with at least one column gives no NaN and a median of
   * 0 in every row.
   */
  lemma CenteredRowsMedianZero(m: Matrix)
    requires !HasNaN(m) && m.cols > 0
    ensures !HasNaN(Centered(m))
    ensures forall r :: 0 <= r < m.rows ==> Median(Centered(m).at[r]) == Num(0.0)
  {
    var z := Centered(m);
    forall r | 0 <= r < m.rows ensures Median(z.at[r]) == Num(0.0) {
      assert m.at[r][0].Num?;
      CenterRowMedianZero(m.at[r]);
    }
    forall r, c | 0 <= r < m.rows && 0 <= c < m.cols ensures z.at[r][c].Num? {
      assert m.at[r][c].Num?;
      assert m.at[r][0].Num?;
    }
  }

  /** Entry (r, c) comes before entry (r0, c0) in row-major order. */
  predicate Before(r: nat, c: nat, r0: nat, c0: nat) {
    r < r0 || (r == r0 && c < c0)
  }

  /** Every entry of `f` before (r0, c0) in row-major order is a number. */
  predicate NumsBefore(f: Matrix, r0: nat, c0: nat) {
    forall r, c :: 0 <= r < f.rows && 0 <= c < f.cols && Before(r, c, r0, c0) ==> f.at[r][c].Num?
  }

  /** (r0, c0) is the first NaN of `f` in row-major order. */
  predicate FirstNaN(f: Matrix, r0: nat, c0: nat) {
    r0 < f.rows && c0 < f.cols && f.at[r0][c0].NaN? && NumsBefore(f, r0, c0)
  }

  /** `m` with the entries before (r0, c0) in row-major order replaced by those of `f`. */
  function OverwrittenBefore(m: Matrix, f: Matrix, r0: nat, c0: nat): (z: Matrix)
    requires f.rows == m.rows && f.cols == m.cols
    ensures z.rows == m.rows && z.cols == m.cols
    ensures forall r, c :: 0 <= r < m.rows && 0 <= c < m.cols ==>
      z.at[r][c] == if Before(r, c, r0, c0) then f.at[r][c] else m.at[r][c]
  {
    Mat(m.rows, m.cols,
        seq(m.rows, r requires 0 <= r < m.rows =>
          seq(m.cols, c requires 0 <= c < m.cols =>
            if Before(r, c, r0, c0) then f.at[r][c] else m.at[r][c])))
  }

  /** The first NaN of a matrix, if any, is unique; a matrix has one exactly when it has a NaN. */
  lemma FirstNaNExists(f: Matrix)
    ensures HasNaN(f) <==> exists r0, c0 :: FirstNaN(f, r0, c0)
    ensures forall r0, c0, r1, c1 :: FirstNaN(f, r0, c0) && FirstNaN(f, r1, c1) ==> r0 == r1 && c0 == c1
  {
    if HasNaN(f) {
      var r0 :| 0 <= r0 < f.rows && exists c :: 0 <= c < f.cols && f.at[r0][c].NaN?;
      var r := 0;
      while r < f.rows && forall c :: 0 <= c < f.cols ==> f.at[r][c].Num?
        invariant 0 <= r <= r0
        invariant forall i, c :: 0 <= i < r && 0 <= c < f.cols ==> f.at[i][c].Num?
      {
        r := r + 1;
      }
      var c := 0;
      while f.at[r][c].Num?
        invariant 0 <= c < f.cols
        invariant forall j :: 0 <= j < c ==> f.at[r][j].Num?
        invariant exists j :: c <= j < f.cols && f.at[r][j].NaN?
        decreases f.cols - c
      {
        c := c + 1;
      }
      assert FirstNaN(f, r, c);
    }
  }

  /**
   * The floored median of every column of `dm`, each taken from a fresh copy of the column.
   */
  method FlooredColumnMedians(dm: array2<Double>) returns (medians: array<Double>)
    ensures fresh(medians)
    ensures medians[..] == ColumnMedians(Snapshot(dm))
  {
    ghost var m := Snapshot(dm);
    medians := new Double[dm.Length1];
    var column := 0;
    while column < dm.Length1
      invariant 0 <= column <= dm.Length1
      invariant forall c :: 0 <= c < column ==> medians[c] == ColumnMedians(m)[c]
      modifies medians
    {
      var tmp := CopyColumn(dm, column);
      assert tmp[..] == Column(m, column);
      medians[column] := Max(Median(tmp[..]), Num(MIN_DEPTH));
      column := column + 1;
    }
  }

  /**
   * The state of `a` during the pass: the entries before (r0, c0) in row-major order hold
   * those of `f`, the others still those of `m`.
   */
  ghost predicate Overwritten(a: array2<Double>, m: Matrix, f: Matrix, r0: nat, c0: nat)
    reads a
  {
    f.rows == m.rows == a.Length0 && f.cols == m.cols == a.Length1 &&
    forall r, c :: 0 <= r < a.Length0 && 0 <= c < a.Length1 ==>
      a[r, c] == if Before(r, c, r0, c0) then f.at[r][c] else m.at[r][c]
  }

  lemma SnapshotOverwritten(a: array2<Double>, m: Matrix, f: Matrix, r0: nat, c0: nat)
    requires f.rows == m.rows == a.Length0 && f.cols == m.cols == a.Length1
    requires Overwritten(a, m, f, r0, c0)
    ensures Snapshot(a) == OverwrittenBefore(m, f, r0, c0)
  {
    Extensionality(Snapshot(a), OverwrittenBefore(m, f, r0, c0));
  }

  /** Finishing a row is starting the next one. */
  lemma RowDone(a: array2<Double>, m: Matrix, f: Matrix, r0: nat)
    requires f.rows == m.rows == a.Length0 && f.cols == m.cols == a.Length1
    requires Overwritten(a, m, f, r0, a.Length1)
    requires NumsBefore(f, r0, 0)
    requires forall c :: 0 <= c < f.cols ==> r0 < f.rows && f.at[r0][c].Num?
    ensures Overwritten(a, m, f, r0 + 1, 0)
    ensures NumsBefore(f, r0 + 1, 0)
  {
  }

  /**
   * The pass over one row: overwrites the entries of row `row` left to right with their
   * normalised values and stops at the first NaN. Returns the column it stopped at, or the
   * column count when the whole row is done.
   */
  method FoldChangeRow(dm: array2<Double>, log2: real -> real, medians: array<Double>, row: nat,
                       ghost m: Matrix, ghost f: Matrix) returns (stop: nat)
    requires f.rows == m.rows == dm.Length0 && f.cols == m.cols == dm.Length1 == medians.Length
    requires row < dm.Length0
    requires forall c :: 0 <= c < dm.Length1 ==> f.at[row][c] == Standard(log2, m.at[row][c], medians[c])
    requires Overwritten(dm, m, f, row, 0)
    modifies dm
    ensures stop <= dm.Length1
    ensures Overwritten(dm, m, f, row, stop)
    ensures forall c :: 0 <= c < stop ==> f.at[row][c].Num?
    ensures stop < dm.Length1 ==> f.at[row][stop].NaN?
  {
    var column := 0;
    while column < dm.Length1
      invariant 0 <= column <= dm.Length1
      invariant Overwritten(dm, m, f, row, column)
      invariant forall c :: 0 <= c < column ==> f.at[row][c].Num?
    {
      var entry := dm[row, column];
      var standard := Log2(log2, Div(Max(entry, Num(MIN_DEPTH)), medians[column]));
      if standard.NaN? {
        return column;
      }
      dm[row, column] := standard;
      forall r, c | 0 <= r < dm.Length0 && 0 <= c < dm.Length1
        ensures dm[r, c] == if Before(r, c, row, column + 1) then f.at[r][c] else m.at[r][c]
      {
        if r != row || c != column {
          assert Before(r, c, row, column + 1) == Before(r, c, row, column);
        }
      }
      column := column + 1;
    }
    return column;
  }

  /**
   * Replaces every entry of `dm` by the log2 fold change against its column's floored median.
   * All medians are taken before the first entry is overwritten; a NaN result stops the pass
   * with the entries before it (row-major) overwritten and the rest untouched.
   */
  method ComputeFoldChangeByColumn(dm: array2<Double>, log2: real -> real) returns (o: Outcome)
    modifies dm
    ensures o.Pass? <==> !HasNaN(old(Snapshot(dm)))
    ensures o.Pass? ==> Snapshot(dm) == FoldChanged(log2, old(Snapshot(dm)))
    ensures o.Fail? ==>
      o.error == InvalidNormalizedValue &&
      exists r0, c0 ::
        FirstNaN(FoldChanged(log2, old(Snapshot(dm))), r0, c0) &&
        Snapshot(dm) == OverwrittenBefore(old(Snapshot(dm)), FoldChanged(log2, old(Snapshot(dm))), r0, c0)
  {
    ghost var m := Snapshot(dm);
    ghost var f := FoldChanged(log2, m);
    var medians := FlooredColumnMedians(dm);
    FoldChangedNaN(log2, m);
    var row := 0;
    while row < dm.Length0
      invariant 0 <= row <= dm.Length0
      invariant Overwritten(dm, m, f, row, 0)
      invariant NumsBefore(f, row, 0)
      modifies dm
    {
      var stop := FoldChangeRow(dm, log2, medians, row, m, f);
      if stop < dm.Length1 {
        assert FirstNaN(f, row, stop);
        SnapshotOverwritten(dm, m, f, row, stop);
        return Fail(InvalidNormalizedValue);
      }
      RowDone(dm, m, f, row);
      row := row + 1;
    }
    SnapshotOverwritten(dm, m, f, row, 0);
    Extensionality(OverwrittenBefore(m, f, row, 0), f);
    return Pass;
  }

  /** Centres row `row` of `dm` on its median, taken from a copy of the row. */
  method CenterRow(dm: array2<Double>, row: nat, ghost m: Matrix, ghost z: Matrix)
    requires row < dm.Length0
    requires RowsReplaced(dm, m, z, row)
    requires z.at[row] == CenteredRow(m.at[row])
    modifies dm
    ensures RowsReplaced(dm, m, z, row + 1)
  {
    var tmp := CopyRow(dm, row);
    assert tmp[..] == m.at[row];
    var median := Median(tmp[..]);
    var col := 0;
    while col < dm.Length1
      invariant 0 <= col <= dm.Length1
      invariant forall r, c :: 0 <= r < dm.Length0 && 0 <= c < dm.Length1 ==>
        dm[r, c] == if r < row || (r == row && c < col) then z.at[r][c] else m.at[r][c]
      invariant forall c :: 0 <= c < dm.Length1 ==> tmp[c] == m.at[row][c]
      modifies dm
    {
      dm[row, col] := Sub(tmp[col], median);
      col := col + 1;
    }
  }

  /** Centres every row of `dm` on its own median. */
  method CenterRowsToMedian(dm: array2<Double>)
    modifies dm
    ensures Snapshot(dm) == Centered(old(Snapshot(dm)))
  {
    ghost var m := Snapshot(dm);
    ghost var z := Centered(m);
    var row := 0;
    while row < dm.Length0
      invariant 0 <= row <= dm.Length0
      invariant RowsReplaced(dm, m, z, row)
      modifies dm
    {
      CenterRow(dm, row, m, z);
      row := row + 1;
    }
    Extensionality(Snapshot(dm), z);
  }

  /**
   * Fold change by column, then centring by row. On success every row of a matrix with at
   * least one column has median 0.
   */
  method FoldChangeAndCenterRows(dm: array2<Double>, log2: real -> real) returns (o: Outcome)
    modifies dm
    ensures o.Pass? <==> !HasNaN(old(Snapshot(dm)))
    ensures o.Pass? ==> Snapshot(dm) == Centered(FoldChanged(log2, old(Snapshot(dm))))
    ensures o.Pass? && dm.Length1 > 0 ==>
      !HasNaN(Snapshot(dm)) && forall r :: 0 <= r < dm.Length0 ==> Median(Snapshot(dm).at[r]) == Num(0.0)
    ensures o.Fail? ==>
      o.error == InvalidNormalizedValue &&
      exists r0, c0 ::
        FirstNaN(FoldChanged(log2, old(Snapshot(dm))), r0, c0) &&
        Snapshot(dm) == OverwrittenBefore(old(Snapshot(dm)), FoldChanged(log2, old(Snapshot(dm))), r0, c0)
  {
    ghost var m := Snapshot(dm);
    o := ComputeFoldChangeByColumn(dm, log2);
    if o.Fail? {
      return;
    }
    ghost var f := Snapshot(dm);
    assert f == FoldChanged(log2, m);
    FoldChangedNaN(log2, m);
    CenterRowsToMedian(dm);
    if dm.Length1 > 0 {
      CenteredRowsMedianZero(f);
    }
  }
}
