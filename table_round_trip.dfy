/**
 * The tables the SVD writes are in the tab-separated matrix format the pipeline reads: a table
 * file read back by `runInputMatrix`'s reader gives its column names, its row names and the
 * matrix it shows, provided `Double.toString` is read back exactly by `Double.parseDouble`
 * and no name contains a tab.
 */
module TableRoundTrip {
  import opened Doubles
  import opened Matrices
  import opened Failures
  import opened Text
  import opened Svd
  import NGSPCA

  /** The matrix a table shows: `m`, or its transpose. */
  function Oriented(m: Matrix, transposed: bool): (o: Matrix)
    ensures o == if transposed then Transpose(m) else m
  {
    if transposed then Transpose(m) else m
  }

  /** None of the names contains a tab. */
  predicate TabFree(names: seq<string>) {
    forall i :: 0 <= i < |names| ==> '\t' !in names[i]
  }

  /** `toStr` writes a non-empty, tab-free text that `parse` reads back as the same value. */
  ghost predicate Renders(toStr: Double -> string, parse: string -> Option<Double>) {
    forall x :: '\t' !in toStr(x) && toStr(x) != "" && parse(toStr(x)) == Some(x)
  }

  /** A data line is fine, and its values are row `r` of the shown matrix. */
  lemma RowLineReadsBack(m: Matrix, rowTitle: string, outCols: seq<string>, outRows: seq<string>,
                         transposed: bool, toStr: Double -> string, parse: string -> Option<Double>, r: nat)
    requires Fits(m, |outCols|, |outRows|, transposed) && |outCols| >= 1
    requires Oriented(m, transposed).cols == |outCols|
    requires Renders(toStr, parse) && r < |outRows| && '\t' !in outRows[r]
    ensures var line := TableLines(m, rowTitle, outCols, outRows, transposed, toStr)[1 + r];
      |NGSPCA.Split(line)| >= 1 && NGSPCA.LineProblem(line, |outCols|, parse).None? &&
      NGSPCA.DataRow(line, |outCols|, parse) == Oriented(m, transposed).at[r]
  {
    var line := TableLines(m, rowTitle, outCols, outRows, transposed, toStr)[1 + r];
    var cells := Cells(m, r, |outCols|, transposed, toStr);
    TableRowFields(m, rowTitle, outCols, outRows, transposed, toStr, r);
    assert NGSPCA.Split(line)[1..] == cells;
    assert NGSPCA.Parses(cells, parse) by {
      forall i | 0 <= i < |cells| ensures parse(cells[i]).Some? {
        assert cells[i] == toStr(Shown(m, r, i, transposed));
      }
    }
    var row := NGSPCA.DataRow(line, |outCols|, parse);
    forall c | 0 <= c < |outCols| ensures row[c] == Shown(m, r, c, transposed) {
      assert NGSPCA.Split(line)[c + 1] == cells[c];
    }
    ShownRow(m, transposed, r, row);
  }

  /** A sequence holding the shown entries of output row `r` is row `r` of the shown matrix. */
  lemma ShownRow(m: Matrix, transposed: bool, r: nat, row: seq<Double>)
    requires r < Oriented(m, transposed).rows && |row| == Oriented(m, transposed).cols
    requires forall c :: 0 <= c < |row| ==> row[c] == Shown(m, r, c, transposed)
    ensures row == Oriented(m, transposed).at[r]
  {
  }

  /**
   * A table whose names match the shown matrix's shape (at least one row and one column)
   * reads back as its column names, its row names and the shown matrix.
   */
  lemma {:induction false} TableReadsBack(m: Matrix, rowTitle: string, outCols: seq<string>, outRows: seq<string>,
                                          transposed: bool, toStr: Double -> string, parse: string -> Option<Double>)
    requires Oriented(m, transposed).rows == |outRows| >= 1 && Oriented(m, transposed).cols == |outCols| >= 1
    requires '\t' !in rowTitle && TabFree(outCols) && TabFree(outRows) && outCols[|outCols| - 1] != ""
    requires Renders(toStr, parse)
    ensures NGSPCA.ReadInputMatrix(TableLines(m, rowTitle, outCols, outRows, transposed, toStr), parse) ==
      Success(NGSPCA.Table(outCols, outRows, Oriented(m, transposed)))
  {
    var lines := TableLines(m, rowTitle, outCols, outRows, transposed, toStr);
    var n := |outCols|;
    TableHeaderFields(m, rowTitle, outCols, outRows, transposed, toStr);
    assert NGSPCA.Split(lines[0])[1..] == outCols;
    forall r | 0 <= r < |outRows|
      ensures |NGSPCA.Split(lines[1 + r])| >= 1 && NGSPCA.Split(lines[1 + r])[0] == outRows[r]
      ensures NGSPCA.LineProblem(lines[1 + r], n, parse).None?
      ensures NGSPCA.DataRow(lines[1 + r], n, parse) == Oriented(m, transposed).at[r]
    {
      TableRowFields(m, rowTitle, outCols, outRows, transposed, toStr, r);
      RowLineReadsBack(m, rowTitle, outCols, outRows, transposed, toStr, parse, r);
    }
    assert NGSPCA.AllSplit(lines) by {
      forall i | 0 <= i < |lines| ensures |NGSPCA.Split(lines[i])| >= 1 {
        if i > 0 {
          assert lines[i] == lines[1 + (i - 1)];
        }
      }
    }
    assert NGSPCA.FirstColumn(lines)[1..] == outRows by {
      forall r | 0 <= r < |outRows| ensures NGSPCA.FirstColumn(lines)[1..][r] == outRows[r] {
        assert NGSPCA.FirstColumn(lines)[1..][r] == NGSPCA.Split(lines[1 + r])[0];
      }
    }
    forall j | 1 <= j < |lines| ensures NGSPCA.LineProblem(lines[j], n, parse).None? {
      assert lines[j] == lines[1 + (j - 1)];
    }
    NGSPCA.FirstBadLineIs(lines, n, parse, |lines|);
    var d := NGSPCA.DataRows(lines, n, parse);
    forall r | 0 <= r < d.rows ensures d.at[r] == Oriented(m, transposed).at[r] {
      assert d.at[r] == NGSPCA.DataRow(lines[1 + r], n, parse);
    }
    assert d.at == Oriented(m, transposed).at;
  }

  /** Numbered names of a tab-free kind are tab-free, and none is empty. */
  lemma NumberedHeaderTabFree(kind: string, n: nat)
    requires '\t' !in kind
    ensures TabFree(NumberedHeader(kind, n))
    ensures forall i :: 0 <= i < n ==> NumberedHeader(kind, n)[i] != ""
  {
    forall i | 0 <= i < n ensures '\t' !in NumberedHeader(kind, n)[i] && NumberedHeader(kind, n)[i] != "" {
      DigitsHaveNo(NatToString(i + 1), '\t');
    }
  }

  /**
   * The PCs file reads back as the PC names, the sample names and V (one row per sample, one
   * column per component), once at least one component is stored.
   */
  lemma PCsFileReadsBack(s: SVD, toStr: Double -> string, parse: string -> Option<Double>)
    requires s.Valid() && s.decomposed && s.numComponents >= 1 && |s.originalColNames| >= 1
    requires TabFree(s.originalColNames) && Renders(toStr, parse)
    ensures NGSPCA.ReadInputMatrix(s.PCsTable(toStr), parse) ==
      Success(NGSPCA.Table(NumberedHeader("PC", s.numComponents), s.originalColNames, Transpose(s.vt)))
  {
    NumberedHeaderTabFree("PC", s.vt.rows);
    TableReadsBack(s.vt, "SAMPLE", NumberedHeader("PC", s.vt.rows), s.originalColNames, true, toStr, parse);
  }

  /**
   * The loadings file of the decomposed matrix `m` reads back as the loading names, the row
   * names and the loadings, once at least one component is stored.
   */
  lemma LoadingsFileReadsBack(s: SVD, m: Matrix, toStr: Double -> string, parse: string -> Option<Double>)
    requires s.Valid() && s.vt.cols <= m.cols && |s.originalRowNames| == m.rows >= 1 && s.numComponents >= 1
    requires TabFree(s.originalRowNames) && Renders(toStr, parse)
    ensures NGSPCA.ReadInputMatrix(s.LoadingsTable(m, toStr), parse) ==
      Success(NGSPCA.Table(NumberedHeader("Loading", s.numComponents), s.originalRowNames,
                           Loadings(m, s.vt, s.w, s.numComponents)))
  {
    NumberedHeaderTabFree("Loading", s.numComponents);
    TableReadsBack(Loadings(m, s.vt, s.w, s.numComponents), "MARKER", NumberedHeader("Loading", s.numComponents),
                   s.originalRowNames, false, toStr, parse);
  }
}
