/**
 * The SVD wrapper of the pipeline: the dimension checks against the name lists, the clamp of
 * the number of stored components, the singular values read off W's diagonal, the loadings
 * `dot(row, Vᵗ[c]) / σ_c`, and the tab-separated tables it writes. The decomposition is a
 * parameter (`Ejml.SvdFactors`); `Double.toString` is the parameter `toStr`; a written file is
 * the sequence of its lines.
 */
module Svd {
  import opened Doubles
  import opened Matrices
  import opened Failures
  import opened Text
  import Ejml

  /** The names `type + "1"`, ..., `type + n`. */
  function NumberedHeader(kind: string, n: nat): (names: seq<string>)
    ensures |names| == n
  {
    seq(n, i requires 0 <= i < n => kind + NatToString(i + 1))
  }

  /** The numbered names are pairwise different. */
  lemma NumberedHeaderDistinct(kind: string, n: nat, i: nat, j: nat)
    requires i < j < n
    ensures NumberedHeader(kind, n)[i] != NumberedHeader(kind, n)[j]
  {
    var names := NumberedHeader(kind, n);
    if names[i] == names[j] {
      assert names[i][|kind|..] == NatToString(i + 1);
      assert names[j][|kind|..] == NatToString(j + 1);
      NatToStringInjective(i + 1, j + 1);
    }
  }

  /** The output tables read `m` directly or transposed; every index they use is in range. */
  predicate Fits(m: Matrix, outCols: nat, outRows: nat, transposed: bool) {
    if transposed then outCols <= m.rows && outRows <= m.cols
    else outRows <= m.rows && outCols <= m.cols
  }

  /** The entry shown in output row `r`, output column `c`. */
  function Shown(m: Matrix, r: nat, c: nat, transposed: bool): Double
    requires if transposed then c < m.rows && r < m.cols else r < m.rows && c < m.cols
  {
    if transposed then m.at[c][r] else m.at[r][c]
  }

  /** The rendered values of output row `r`, one per output column. */
  function Cells(m: Matrix, r: nat, outCols: nat, transposed: bool, toStr: Double -> string): (cells: seq<string>)
    requires if transposed then outCols <= m.rows && r < m.cols else r < m.rows && outCols <= m.cols
    ensures |cells| == outCols
    ensures forall c :: 0 <= c < outCols ==> cells[c] == toStr(Shown(m, r, c, transposed))
  {
    seq(outCols, c requires 0 <= c < outCols => toStr(Shown(m, r, c, transposed)))
  }

  /** The lines a table file holds: the header, then one line per output row name. */
  function TableLines(m: Matrix, rowTitle: string, outCols: seq<string>, outRows: seq<string>,
                      transposed: bool, toStr: Double -> string): (lines: seq<string>)
    requires Fits(m, |outCols|, |outRows|, transposed)
    ensures |lines| == 1 + |outRows|
  {
    [Join([rowTitle] + outCols, '\t')] +
    seq(|outRows|, r requires 0 <= r < |outRows| =>
      Join([outRows[r]] + Cells(m, r, |outCols|, transposed, toStr), '\t'))
  }

  /** Split at tabs, the header line gives the title and the output column names. */
  lemma TableHeaderFields(m: Matrix, rowTitle: string, outCols: seq<string>, outRows: seq<string>,
                          transposed: bool, toStr: Double -> string)
    requires Fits(m, |outCols|, |outRows|, transposed)
    requires '\t' !in rowTitle && forall i :: 0 <= i < |outCols| ==> '\t' !in outCols[i]
    requires |outCols| >= 1 && outCols[|outCols| - 1] != ""
    ensures JavaSplit(TableLines(m, rowTitle, outCols, outRows, transposed, toStr)[0], '\t') == [rowTitle] + outCols
  {
    var header := [rowTitle] + outCols;
    assert forall i :: 1 <= i < |header| ==> header[i] == outCols[i - 1];
    JavaSplitOfJoin(header, '\t');
  }

  /**
   * Split at tabs, line `1 + r` gives row name `r` followed by the rendered entries of output
   * row `r` (entry `(c, r)` of `m` when transposed, `(r, c)` otherwise) — provided neither the
   * name nor any rendered value contains a tab and rendered values are not empty.
   */
  lemma TableRowFields(m: Matrix, rowTitle: string, outCols: seq<string>, outRows: seq<string>,
                       transposed: bool, toStr: Double -> string, r: nat)
    requires Fits(m, |outCols|, |outRows|, transposed) && |outCols| >= 1
    requires forall x :: '\t' !in toStr(x) && toStr(x) != ""
    requires r < |outRows| && '\t' !in outRows[r]
    ensures JavaSplit(TableLines(m, rowTitle, outCols, outRows, transposed, toStr)[1 + r], '\t') ==
      [outRows[r]] + Cells(m, r, |outCols|, transposed, toStr)
  {
    var cells := Cells(m, r, |outCols|, transposed, toStr);
    assert TableLines(m, rowTitle, outCols, outRows, transposed, toStr)[1 + r] == Join([outRows[r]] + cells, '\t');
    forall i | 0 <= i < |cells| ensures '\t' !in cells[i] {
      assert cells[i] == toStr(Shown(m, r, i, transposed));
    }
    assert cells[|cells| - 1] == toStr(Shown(m, r, |cells| - 1, transposed));
    NamedLineFields(outRows[r], cells);
  }

  /** A name followed by non-empty, tab-free cells splits back into them. */
  lemma NamedLineFields(name: string, cells: seq<string>)
    requires '\t' !in name && |cells| >= 1 && cells[|cells| - 1] != ""
    requires forall i :: 0 <= i < |cells| ==> '\t' !in cells[i]
    ensures JavaSplit(Join([name] + cells, '\t'), '\t') == [name] + cells
  {
    var row := [name] + cells;
    assert row[|row| - 1] == cells[|cells| - 1];
    forall i | 0 <= i < |row| ensures '\t' !in row[i] {
      if i > 0 {
        assert row[i] == cells[i - 1];
      }
    }
    JavaSplitOfJoin(row, '\t');
  }

  class SVD {
    const originalColNames: seq<string>
    const originalRowNames: seq<string>
    /** Whether `computeSVD` has run (the Java field `svd` is no longer null). */
    var decomposed: bool
    /** W as `svd.getW(null)` returns it; its diagonal holds the singular values. */
    var w: Matrix
    /** Vᵗ as `svd.getV(null, true)` returns it, cut to its first `numComponents` rows. */
    var vt: Matrix
    var numComponents: nat

    /** Vᵗ has one row per stored component; after a decomposition the shapes match the names. */
    predicate Valid()
      reads this
    {
      vt.rows == numComponents && numComponents <= w.rows && numComponents <= w.cols &&
      (decomposed ==> w.rows == |originalRowNames| && w.cols == |originalColNames| &&
                      vt.cols == |originalColNames|)
    }

    constructor (colNames: seq<string>, rowNames: seq<string>)
      ensures originalColNames == colNames && originalRowNames == rowNames
      ensures !decomposed && numComponents == 0 && Valid()
    {
      originalColNames := colNames;
      originalRowNames := rowNames;
      decomposed := false;
      w := Mat(0, 0, []);
      vt := Mat(0, 0, []);
      numComponents := 0;
    }

    /**
     * Checks the columns against the column names, then the rows against the row names, and
     * only then decomposes. Keeps `min(requested, W.rows, Vᵗ.cols)` components; fewer than
     * requested is no error.
     */
    method ComputeSVD(dm: array2<Double>, requested: nat, decompose: Matrix -> Ejml.SvdFactors)
      returns (o: Outcome)
      requires Valid()
      requires Ejml.NonCompactShapes(Snapshot(dm), decompose(Snapshot(dm)))
      modifies this
      ensures Valid()
      ensures o.Pass? <==> dm.Length1 == |originalColNames| && dm.Length0 == |originalRowNames|
      ensures dm.Length1 != |originalColNames| ==> o == Fail(MismatchedColumnLengths)
      ensures dm.Length1 == |originalColNames| && dm.Length0 != |originalRowNames| ==>
        o == Fail(MismatchedRowLengths)
      ensures o.Fail? ==>
        decomposed == old(decomposed) && w == old(w) && vt == old(vt) && numComponents == old(numComponents)
      ensures o.Pass? ==> var f := decompose(Snapshot(dm));
        decomposed && w == f.w &&
        numComponents == Min(requested, Min(f.w.rows, f.vt.cols)) &&
        vt == FirstRows(f.vt, numComponents)
      ensures o.Pass? ==>
        numComponents <= requested &&
        (numComponents < requested ==> numComponents == Min(dm.Length0, dm.Length1))
    {
      if dm.Length1 != |originalColNames| {
        return Fail(MismatchedColumnLengths);
      }
      if dm.Length0 != |originalRowNames| {
        return Fail(MismatchedRowLengths);
      }
      var f := decompose(Snapshot(dm));
      w := f.w;
      numComponents := Min(requested, Min(f.w.rows, f.vt.cols));
      vt := FirstRows(f.vt, numComponents);
      decomposed := true;
      o := Pass;
    }

    /** The first `numComponents` diagonal entries of W, in order. */
    method GetSingularValues() returns (sv: seq<Double>)
      requires Valid()
      ensures |sv| == numComponents
      ensures forall i :: 0 <= i < numComponents ==> sv[i] == w.at[i][i]
    {
      var a := new Double[numComponents];
      for i := 0 to numComponents
        invariant forall j :: 0 <= j < i ==> a[j] == w.at[j][j]
      {
        a[i] := w.at[i][i];
      }
      sv := a[..];
    }

    /** The table of `DumpPCsToText`: title SAMPLE, a PC column per row of Vᵗ, a line per sample. */
    function PCsTable(toStr: Double -> string): (lines: seq<string>)
      requires Valid() && decomposed
      reads this
      ensures |lines| == 1 + |originalColNames|
    {
      TableLines(vt, "SAMPLE", NumberedHeader("PC", vt.rows), originalColNames, true, toStr)
    }

    /** The PCs written out: header `SAMPLE PC1 ... PCk`, then sample `s` with `Vᵗ[c][s]` for each c. */
    method DumpPCsToText(toStr: Double -> string) returns (lines: seq<string>)
      requires Valid() && decomposed
      ensures lines == PCsTable(toStr)
    {
      var pcNames := GetNumberedColumnHeader("PC", vt.rows);
      lines := DumpMatrix(vt, "SAMPLE", pcNames, originalColNames, true, toStr);
    }

    /** The loadings of every row of `dm` on every stored component. */
    method ComputeLoadings(dm: array2<Double>) returns (l: Matrix)
      requires Valid() && vt.cols <= dm.Length1
      ensures l == Loadings(Snapshot(dm), vt, w, numComponents)
    {
      var loadingData := new Double[dm.Length0, numComponents]((_, _) => Num(0.0));
      var singularValues := GetSingularValues();
      assert singularValues == Ejml.Diagonal(w, numComponents);
      ghost var target := Loadings(Snapshot(dm), vt, w, numComponents);
      for row := 0 to dm.Length0
        invariant RowsDone(Snapshot(loadingData), target, row)
      {
        var rowData := CopyRow(dm, row);
        assert rowData[..] == Snapshot(dm).at[row];
        ghost var before := Snapshot(loadingData);
        AddLoadingRow(loadingData, row, rowData[..], singularValues);
        RowsDoneStep(before, target, row);
      }
      l := Snapshot(loadingData);
      assert l.at == target.at;
    }

    /** `loadingData.add(row, c, loading)` for every stored component c, into a row of zeros. */
    method AddLoadingRow(loadingData: array2<Double>, row: nat, rowData: seq<Double>, singularValues: seq<Double>)
      requires Valid() && row < loadingData.Length0 && loadingData.Length1 == numComponents
      requires |singularValues| == numComponents && vt.cols <= |rowData|
      requires forall c :: 0 <= c < numComponents ==> loadingData[row, c] == Num(0.0)
      modifies loadingData
      ensures Snapshot(loadingData) ==
        WithRow(old(Snapshot(loadingData)), row, LoadingRow(rowData, vt, singularValues))
    {
      ghost var target := LoadingRow(rowData, vt, singularValues);
      for component := 0 to numComponents
        invariant forall r, c :: 0 <= r < loadingData.Length0 && 0 <= c < loadingData.Length1 ==>
          loadingData[r, c] == if r == row && c < component then target[c] else old(loadingData[r, c])
      {
        var loading := GetLoading(singularValues[component], rowData, vt.at[component]);
        loadingData[row, component] := Add(loadingData[row, component], loading);
      }
      Extensionality(Snapshot(loadingData), WithRow(old(Snapshot(loadingData)), row, target));
    }

    /** The loadings table: title MARKER, a Loading column per component, a line per row name. */
    function LoadingsTable(m: Matrix, toStr: Double -> string): (lines: seq<string>)
      requires Valid() && vt.cols <= m.cols && |originalRowNames| <= m.rows
      reads this
      ensures |lines| == 1 + |originalRowNames|
    {
      TableLines(Loadings(m, vt, w, numComponents), "MARKER", NumberedHeader("Loading", numComponents),
                 originalRowNames, false, toStr)
    }

    method ComputeAndDumpLoadings(dm: array2<Double>, toStr: Double -> string) returns (lines: seq<string>)
      requires Valid() && vt.cols <= dm.Length1 && |originalRowNames| <= dm.Length0
      ensures lines == LoadingsTable(Snapshot(dm), toStr)
    {
      var loadingData := ComputeLoadings(dm);
      var loadingNames := GetNumberedColumnHeader("Loading", loadingData.cols);
      lines := DumpMatrix(loadingData, "MARKER", loadingNames, originalRowNames, false, toStr);
    }

    /** The singular-value file: a header, then `c TAB σ_c` for every stored component c, from 0. */
    function SingularValuesText(toStr: Double -> string): (text: string)
      requires Valid()
      reads this
    {
      Join(["SINGULAR_VALUES\tPC"] + SingularValueLines(w, numComponents, toStr), '\n')
    }

    method DumpSingularValuesToText(toStr: Double -> string) returns (text: string)
      requires Valid()
      ensures text == SingularValuesText(toStr)
    {
      var parts := ["SINGULAR_VALUES\tPC"];
      for component := 0 to numComponents
        invariant parts == ["SINGULAR_VALUES\tPC"] + SingularValueLines(w, component, toStr)
      {
        parts := parts + [NatToString(component) + "\t" + toStr(w.at[component][component])];
      }
      text := Join(parts, '\n');
    }
  }

  /** The loadings of one data row: its dot product with row `c` of Vᵗ, divided by `sv[c]`. */
  function LoadingRow(data: seq<Double>, vt: Matrix, sv: seq<Double>): (row: seq<Double>)
    requires |sv| <= vt.rows && vt.cols <= |data|
    ensures |row| == |sv|
  {
    seq(|sv|, c requires 0 <= c < |sv| => Div(Dot(data, vt.at[c], vt.cols), sv[c]))
  }

  /** Loading `(r, c)`: row `r` of `m` dotted with row `c` of Vᵗ over Vᵗ's width, divided by `σ_c`. */
  function Loadings(m: Matrix, vt: Matrix, w: Matrix, k: nat): (l: Matrix)
    requires k <= vt.rows && k <= w.rows && k <= w.cols && vt.cols <= m.cols
    ensures l.rows == m.rows && l.cols == k
    ensures forall r, c :: 0 <= r < m.rows && 0 <= c < k ==>
      l.at[r][c] == Div(Dot(m.at[r], vt.at[c], vt.cols), w.at[c][c])
  {
    Mat(m.rows, k, seq(m.rows, r requires 0 <= r < m.rows => LoadingRow(m.at[r], vt, Ejml.Diagonal(w, k))))
  }

  /** Rows before `row` hold those of `target`; the others are still zero. */
  predicate RowsDone(m: Matrix, target: Matrix, row: nat) {
    m.rows == target.rows && m.cols == target.cols && row <= m.rows &&
    (forall i :: 0 <= i < row ==> m.at[i] == target.at[i]) &&
    forall i, j :: row <= i < m.rows && 0 <= j < m.cols ==> m.at[i][j] == Num(0.0)
  }

  lemma RowsDoneStep(m: Matrix, target: Matrix, row: nat)
    requires RowsDone(m, target, row) && row < m.rows
    ensures RowsDone(WithRow(m, row, target.at[row]), target, row + 1)
  {
  }

  /** Row `c` of Vᵗ is column `c` of V. */
  lemma ColumnOfTranspose(vt: Matrix, c: nat)
    requires c < vt.rows
    ensures Column(Transpose(vt), c) == vt.at[c]
  {
  }

  /**
   * When `m` is as wide as Vᵗ, the loadings are the projection `m · V` with column `c` divided
   * by `σ_c`. Both sides use the same left-to-right `Dot`, so this restates `Loadings` in
   * matrix form (m·V/σ) rather than adding an independent fact.
   */
  lemma LoadingsAreProjection(m: Matrix, vt: Matrix, w: Matrix, k: nat, r: nat, c: nat)
    requires k <= vt.rows && k <= w.rows && k <= w.cols && vt.cols == m.cols
    requires r < m.rows && c < k
    ensures Loadings(m, vt, w, k).at[r][c] == Div(MatMul(m, Transpose(vt)).at[r][c], Ejml.Diagonal(w, k)[c])
  {
    ColumnOfTranspose(vt, c);
  }

  /** The lines `c TAB σ_c` for `c < k`. */
  function SingularValueLines(w: Matrix, k: nat, toStr: Double -> string): (lines: seq<string>)
    requires k <= w.rows && k <= w.cols
    ensures |lines| == k
  {
    if k == 0 then []
    else SingularValueLines(w, k - 1, toStr) + [NatToString(k - 1) + "\t" + toStr(w.at[k - 1][k - 1])]
  }

  /**
   * Read back at newlines and tabs, line `1 + c` of the singular-value text is the number `c`
   * (which `ParseNat` reads back, `ParseNatToString`) and the rendering of `σ_c`, when `toStr`
   * writes neither tabs nor newlines.
   */
  lemma SingularValuesReadBack(w: Matrix, k: nat, toStr: Double -> string, c: nat)
    requires k <= w.rows && k <= w.cols && c < k
    requires forall x :: '\t' !in toStr(x) && '\n' !in toStr(x) && toStr(x) != ""
    ensures var lines := Fields(Join(["SINGULAR_VALUES\tPC"] + SingularValueLines(w, k, toStr), '\n'), '\n');
      |lines| == 1 + k && lines[0] == "SINGULAR_VALUES\tPC" &&
      var fields := JavaSplit(lines[1 + c], '\t');
      fields == [NatToString(c), toStr(w.at[c][c])]
  {
    var svLines := SingularValueLines(w, k, toStr);
    var parts := ["SINGULAR_VALUES\tPC"] + svLines;
    forall i | 0 <= i < |parts| ensures '\n' !in parts[i] {
      if i > 0 {
        SingularValueLineAt(w, k, toStr, i - 1);
        NoNewlineInLine(i - 1, toStr(w.at[i - 1][i - 1]));
      }
    }
    FieldsOfJoin(parts, '\n');
    SingularValueLineAt(w, k, toStr, c);
    var pair := [NatToString(c), toStr(w.at[c][c])];
    assert Join(pair, '\t') == parts[1 + c];
    assert '\t' !in pair[0] by { DigitsHaveNo(NatToString(c), '\t'); }
    JavaSplitOfJoin(pair, '\t');
  }

  lemma {:induction false} SingularValueLineAt(w: Matrix, k: nat, toStr: Double -> string, c: nat)
    requires k <= w.rows && k <= w.cols && c < k
    ensures SingularValueLines(w, k, toStr)[c] == NatToString(c) + "\t" + toStr(w.at[c][c])
  {
    if c < k - 1 {
      SingularValueLineAt(w, k - 1, toStr, c);
    }
  }

  lemma DigitsHaveNo(s: string, x: char)
    requires forall i :: 0 <= i < |s| ==> '0' <= s[i] <= '9'
    requires !('0' <= x <= '9')
    ensures x !in s
  {
  }

  lemma NoNewlineInLine(c: nat, v: string)
    requires '\n' !in v
    ensures '\n' !in NatToString(c) + "\t" + v
  {
    DigitsHaveNo(NatToString(c), '\n');
  }

  /** The names `type + (i + 1)` for `i < num`; none for a negative `num`. */
  method GetNumberedColumnHeader(kind: string, num: int) returns (names: seq<string>)
    ensures names == NumberedHeader(kind, if num < 0 then 0 else num)
    ensures forall i, j :: 0 <= i < j < |names| ==> names[i] != names[j]
  {
    names := [];
    var i := 0;
    while i < num
      invariant 0 <= i && (num >= 0 ==> i <= num) && (num < 0 ==> i == 0)
      invariant names == NumberedHeader(kind, i)
    {
      assert NumberedHeader(kind, i + 1) == NumberedHeader(kind, i) + [kind + NatToString(i + 1)];
      names := names + [kind + NatToString(i + 1)];
      i := i + 1;
    }
    forall i, j | 0 <= i < j < |names| ensures names[i] != names[j] {
      NumberedHeaderDistinct(kind, |names|, i, j);
    }
  }

  /** Builds the lines of a table file, appending field by field as the StringJoiners do. */
  method DumpMatrix(m: Matrix, rowTitle: string, outCols: seq<string>, outRows: seq<string>,
                    transposed: bool, toStr: Double -> string) returns (lines: seq<string>)
    requires Fits(m, |outCols|, |outRows|, transposed)
    ensures lines == TableLines(m, rowTitle, outCols, outRows, transposed, toStr)
  {
    var header := [rowTitle];
    for i := 0 to |outCols|
      invariant header == [rowTitle] + outCols[..i]
    {
      header := header + [outCols[i]];
    }
    assert outCols[..|outCols|] == outCols;
    ghost var table := TableLines(m, rowTitle, outCols, outRows, transposed, toStr);
    lines := [Join(header, '\t')];
    for outputRow := 0 to |outRows|
      invariant lines == table[..1 + outputRow]
    {
      var line := RowLine(m, |outCols|, outRows[outputRow], outputRow, transposed, toStr);
      assert table[..2 + outputRow] == table[..1 + outputRow] + [line];
      lines := lines + [line];
    }
  }

  /** One output row of a table: its name, then the rendered entries, joined by tabs. */
  method RowLine(m: Matrix, outCols: nat, name: string, outputRow: nat, transposed: bool,
                 toStr: Double -> string) returns (line: string)
    requires if transposed then outCols <= m.rows && outputRow < m.cols
             else outputRow < m.rows && outCols <= m.cols
    ensures line == Join([name] + Cells(m, outputRow, outCols, transposed, toStr), '\t')
  {
    ghost var cells := Cells(m, outputRow, outCols, transposed, toStr);
    var sample := [name];
    for outputColumn := 0 to outCols
      invariant sample == [name] + cells[..outputColumn]
    {
      var x := if transposed then m.at[outputColumn][outputRow] else m.at[outputRow][outputColumn];
      assert cells[..outputColumn + 1] == cells[..outputColumn] + [toStr(x)];
      sample := sample + [toStr(x)];
    }
    assert cells[..outCols] == cells;
    line := Join(sample, '\t');
  }

  /** The loading of one row on one component: `Σ data[i] * basis[i]` over the basis, over `σ`. */
  method GetLoading(singularValue: Double, data: seq<Double>, basis: seq<Double>) returns (loading: Double)
    requires |basis| <= |data|
    ensures loading == Div(Dot(data, basis, |basis|), singularValue)
  {
    var sum := Num(0.0);
    for i := 0 to |basis|
      invariant sum == Dot(data, basis, i)
    {
      sum := Add(sum, Mul(data[i], basis[i]));
    }
    loading := Div(sum, singularValue);
  }
}
