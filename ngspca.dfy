/**
 * The two entry points that build the input matrix of the PCA: from a tab-separated matrix
 * file (a header line of sample names, then one line per region: its name and one value per
 * sample), and from a list of mosdepth result files.
 */
module NGSPCA {
  import opened Doubles
  import opened Matrices
  import opened Failures
  import opened Text
  import Utils
  import MosdepthUtils
  import N = NormalizationOperations

  /** The delimiter of the input matrix file. */
  const DELIM: char := '\t'

  function Split(line: string): seq<string> {
    JavaSplit(line, DELIM)
  }

  /** Every line has at least one field. */
  predicate AllSplit(lines: seq<string>) {
    forall i :: 0 <= i < |lines| ==> |Split(lines[i])| >= 1
  }

  /**
   * The first field of every line (reading column 0 of the file); the empty list when some
   * line has no field, because the ArrayIndexOutOfBoundsException is caught and logged and
   * the list is left empty.
   */
  function FirstColumn(lines: seq<string>): (col: seq<string>)
    ensures AllSplit(lines) ==> |col| == |lines| && forall i :: 0 <= i < |lines| ==> col[i] == Split(lines[i])[0]
    ensures !AllSplit(lines) ==> col == []
  {
    if AllSplit(lines) then seq(|lines|, i requires 0 <= i < |lines| => Split(lines[i])[0]) else []
  }

  // ---------------------------------------------------------------------------------------
  // Reading the matrix file

  /** Every field is a number. */
  predicate Parses(fields: seq<string>, parse: string -> Option<Double>) {
    forall i :: 0 <= i < |fields| ==> parse(fields[i]).Some?
  }

  /**
   * What goes wrong with one data line when `n` samples are expected: a field after the name
   * that is no number (convertToDoubleArray), or a number of values other than `n` (setRow).
   */
  function LineProblem(line: string, n: nat, parse: string -> Option<Double>): Option<Error>
    requires |Split(line)| >= 1
  {
    var fields := Split(line)[1..];
    if !Parses(fields, parse) then Some(NonNumericMatrixValue)
    else if |fields| != n then Some(RowLengthMismatch(n, |fields|))
    else None
  }

  /** The first data line at or after `i` that has a problem, or |lines| when there is none. */
  function FirstBadLine(lines: seq<string>, n: nat, parse: string -> Option<Double>, i: nat): (k: nat)
    requires AllSplit(lines) && i <= |lines|
    decreases |lines| - i
    ensures i <= k <= |lines|
    ensures forall j :: i <= j < k ==> LineProblem(lines[j], n, parse).None?
    ensures k < |lines| ==> LineProblem(lines[k], n, parse).Some?
  {
    if i == |lines| || LineProblem(lines[i], n, parse).Some? then i
    else FirstBadLine(lines, n, parse, i + 1)
  }

  /** The values of a data line: its fields after the name, parsed. */
  function DataRow(line: string, n: nat, parse: string -> Option<Double>): (row: seq<Double>)
    requires |Split(line)| >= 1 && LineProblem(line, n, parse).None?
    ensures |row| == n
    ensures forall j :: 0 <= j < n ==> row[j] == parse(Split(line)[j + 1]).value
  {
    var fields := Split(line)[1..];
    seq(|fields|, j requires 0 <= j < |fields| => parse(fields[j]).value)
  }

  /** Row i holds the values of data line i, the line after the header being data line 0. */
  function DataRows(lines: seq<string>, n: nat, parse: string -> Option<Double>): (m: Matrix)
    requires |lines| >= 1 && AllSplit(lines)
    requires forall j :: 1 <= j < |lines| ==> LineProblem(lines[j], n, parse).None?
    ensures m.rows == |lines| - 1 && m.cols == n
    ensures forall r :: 0 <= r < m.rows ==> m.at[r] == DataRow(lines[r + 1], n, parse)
  {
    Mat(|lines| - 1, n, seq(|lines| - 1, r requires 0 <= r < |lines| - 1 => DataRow(lines[r + 1], n, parse)))
  }

  /** The sample names, the region names and the values read from a matrix file. */
  datatype Table = Table(samples: seq<string>, regions: seq<string>, values: Matrix)

  /**
   * Reading a matrix file: the header line's fields minus the first are the samples, the
   * first fields of the other lines are the regions, and each other line's remaining fields
   * are its row. The failures in the order they are met: no header line; an empty header
   * list or region list (removing the first name of an empty list); an empty matrix; the
   * first bad data line.
   */
  function ReadInputMatrix(lines: seq<string>, parse: string -> Option<Double>): Result<Table> {
    if |lines| == 0 then Failure(NoHeaderLine)
    else if |Split(lines[0])| == 0 || !AllSplit(lines) then Failure(EmptyNameList)
    else
      var samples := Split(lines[0])[1..];
      var regions := FirstColumn(lines)[1..];
      if |regions| == 0 || |samples| == 0 then Failure(EmptyMatrix(|regions|, |samples|))
      else
        var k := FirstBadLine(lines, |samples|, parse, 1);
        if k < |lines| then Failure(LineProblem(lines[k], |samples|, parse).value)
        else Success(Table(samples, regions, DataRows(lines, |samples|, parse)))
  }

  /**
   * What a successful read means: the samples are the header's fields after the first, region
   * i and row i come from line i + 1, every row has one value per sample, and the matrix is
   * |regions| x |samples|.
   */
  lemma ReadInputMatrixContents(lines: seq<string>, parse: string -> Option<Double>)
    requires ReadInputMatrix(lines, parse).Success?
    ensures var t := ReadInputMatrix(lines, parse).value;
      |lines| >= 2 && t.samples == Split(lines[0])[1..] && |t.samples| >= 1 &&
      |t.regions| == |lines| - 1 && t.values.rows == |t.regions| && t.values.cols == |t.samples| &&
      forall i :: 0 <= i < |t.regions| ==>
        |Split(lines[i + 1])| == |t.samples| + 1 &&
        t.regions[i] == Split(lines[i + 1])[0] &&
        forall j :: 0 <= j < |t.samples| ==> t.values.at[i][j] == parse(Split(lines[i + 1])[j + 1]).value
  {
    var t := ReadInputMatrix(lines, parse).value;
    forall i | 0 <= i < |t.regions|
      ensures |Split(lines[i + 1])| == |t.samples| + 1
      ensures t.regions[i] == Split(lines[i + 1])[0]
    {
      assert LineProblem(lines[i + 1], |t.samples|, parse).None?;
    }
  }

  /**
   * BlockRealMatrix.setRow: a row of the wrong length is refused, otherwise row `row` is
   * replaced. (Its row-index check cannot fail here: the caller's counter stays below the
   * number of regions.)
   */
  method SetRow(dm: array2<Double>, row: nat, values: seq<Double>) returns (o: Outcome)
    requires row < dm.Length0
    modifies dm
    ensures o.Pass? <==> |values| == dm.Length1
    ensures o.Fail? ==> o.error == RowLengthMismatch(dm.Length1, |values|) && unchanged(dm)
    ensures o.Pass? ==> Snapshot(dm) == WithRow(old(Snapshot(dm)), row, values)
  {
    if |values| != dm.Length1 {
      return Fail(RowLengthMismatch(dm.Length1, |values|));
    }
    var col := 0;
    while col < dm.Length1
      invariant col <= dm.Length1
      invariant forall r, c :: 0 <= r < dm.Length0 && 0 <= c < dm.Length1 ==>
        dm[r, c] == if r == row && c < col then values[c] else old(dm[r, c])
      modifies dm
    {
      dm[row, col] := values[col];
      col := col + 1;
    }
    Extensionality(Snapshot(dm), WithRow(old(Snapshot(dm)), row, values));
    return Pass;
  }

  /** Data lines 1..k are fine and rows 0..k-1 of `m` hold their values; the rest is zero. */
  predicate Filled(m: Matrix, lines: seq<string>, parse: string -> Option<Double>, k: nat) {
    |lines| == m.rows + 1 && AllSplit(lines) && k <= m.rows &&
    (forall j :: 1 <= j <= k ==> LineProblem(lines[j], m.cols, parse).None?) &&
    (forall r :: 0 <= r < k ==> m.at[r] == DataRow(lines[r + 1], m.cols, parse)) &&
    forall r, c :: k <= r < m.rows && 0 <= c < m.cols ==> m.at[r][c] == Num(0.0)
  }

  lemma FilledStep(m: Matrix, lines: seq<string>, parse: string -> Option<Double>, k: nat)
    requires Filled(m, lines, parse, k) && k < m.rows
    requires LineProblem(lines[k + 1], m.cols, parse).None?
    ensures Filled(WithRow(m, k, DataRow(lines[k + 1], m.cols, parse)), lines, parse, k + 1)
  {
  }

  /** A fill that passed lines 1..k - 1 and stops at line k stops at the first bad line. */
  lemma FirstBadLineIs(lines: seq<string>, n: nat, parse: string -> Option<Double>, k: nat)
    requires AllSplit(lines) && 1 <= k <= |lines|
    requires forall j :: 1 <= j < k ==> LineProblem(lines[j], n, parse).None?
    requires k < |lines| ==> LineProblem(lines[k], n, parse).Some?
    ensures FirstBadLine(lines, n, parse, 1) == k
  {
  }

  /** One step of the row fill: data line k + 1 becomes row k, or its problem is reported. */
  method FillRow(dm: array2<Double>, lines: seq<string>, parse: string -> Option<Double>, k: nat)
    returns (o: Outcome)
    requires k < dm.Length0 && dm.Length0 + 1 == |lines| && AllSplit(lines)
    modifies dm
    ensures o.Pass? <==> LineProblem(lines[k + 1], dm.Length1, parse).None?
    ensures o.Pass? ==> Snapshot(dm) == WithRow(old(Snapshot(dm)), k, DataRow(lines[k + 1], dm.Length1, parse))
    ensures o.Fail? ==> o.error == LineProblem(lines[k + 1], dm.Length1, parse).value
  {
    var n := dm.Length1;
    var line := lines[k + 1];
    assert |Split(line)| >= 1;
    var fields := Split(line)[1..];
    var values := Utils.ConvertToDoubleArray(fields, parse);
    if values.Failure? {
      assert !Parses(fields, parse);
      return Fail(values.error);
    }
    assert Parses(fields, parse);
    o := SetRow(dm, k, values.value);
    if o.Pass? {
      ghost var row := DataRow(line, n, parse);
      forall j | 0 <= j < n ensures values.value[j] == row[j] {
        assert fields[j] == Split(line)[j + 1];
      }
      assert values.value == row;
    }
  }

  /**
   * The row fill of runInputMatrix: data line i (the header skipped) is split, its fields
   * after the name are parsed and the result becomes row i, the row counter going up by one
   * per line; the first bad line stops the fill.
   */
  method FillRows(dm: array2<Double>, lines: seq<string>, parse: string -> Option<Double>)
    returns (o: Outcome)
    requires |lines| == dm.Length0 + 1 && AllSplit(lines)
    requires Snapshot(dm) == Zeros(dm.Length0, dm.Length1)
    modifies dm
    ensures var k := FirstBadLine(lines, dm.Length1, parse, 1);
      (o.Pass? <==> k == |lines|) &&
      (o.Pass? ==> Snapshot(dm) == DataRows(lines, dm.Length1, parse)) &&
      (o.Fail? ==> o.error == LineProblem(lines[k], dm.Length1, parse).value)
  {
    var rowIndex := 0;
    while rowIndex < dm.Length0
      invariant dm.Length0 + 1 == |lines|
      invariant Filled(Snapshot(dm), lines, parse, rowIndex)
      modifies dm
    {
      ghost var m := Snapshot(dm);
      o := FillRow(dm, lines, parse, rowIndex);
      if o.Fail? {
        FirstBadLineIs(lines, dm.Length1, parse, rowIndex + 1);
        return;
      }
      FilledStep(m, lines, parse, rowIndex);
      rowIndex := rowIndex + 1;
    }
    FirstBadLineIs(lines, dm.Length1, parse, |lines|);
    Extensionality(Snapshot(dm), DataRows(lines, dm.Length1, parse));
    return Pass;
  }

  /** The names and the populated matrix runInputMatrix hands to the decomposition. */
  datatype InputMatrix = InputMatrix(samples: seq<string>, regions: seq<string>, dm: array2<Double>)

  /**
   * runInputMatrix, populating branch: reads the names and the matrix from the lines of the
   * file and normalises the matrix only when `normMatrix` is set.
   */
  method RunInputMatrix(lines: seq<string>, parse: string -> Option<Double>, log2: real -> real,
                        normMatrix: bool) returns (r: Result<InputMatrix>)
    ensures var t := ReadInputMatrix(lines, parse);
      r.Success? <==> t.Success? && (normMatrix ==> !HasNaN(t.value.values))
    ensures var t := ReadInputMatrix(lines, parse);
      r.Success? ==>
        r.value.samples == t.value.samples && r.value.regions == t.value.regions &&
        fresh(r.value.dm) &&
        Snapshot(r.value.dm) ==
          if normMatrix then N.Centered(N.FoldChanged(log2, t.value.values)) else t.value.values
    ensures var t := ReadInputMatrix(lines, parse);
      r.Failure? ==> r.error == if t.Failure? then t.error else InvalidNormalizedValue
  {
    if |lines| == 0 {
      return Failure(NoHeaderLine);
    }
    var samples := Split(lines[0]);
    if |samples| == 0 {
      return Failure(EmptyNameList);
    }
    samples := samples[1..];
    var regions := FirstColumn(lines);
    if |regions| == 0 {
      return Failure(EmptyNameList);
    }
    regions := regions[1..];
    if |regions| == 0 || |samples| == 0 {
      return Failure(EmptyMatrix(|regions|, |samples|));
    }
    var dm := new Double[|regions|, |samples|]((_, _) => Num(0.0));
    Extensionality(Snapshot(dm), Zeros(|regions|, |samples|));
    var o := FillRows(dm, lines, parse);
    if o.Fail? {
      return Failure(o.error);
    }
    if normMatrix {
      o := N.FoldChangeAndCenterRows(dm, log2);
      if o.Fail? {
        return Failure(o.error);
      }
    }
    return Success(InputMatrix(samples, regions, dm));
  }

  // ---------------------------------------------------------------------------------------
  // Region sub-sampling

  /** Among the first `n` regions, those whose index is a multiple of `s`, in order. */
  function EveryNth(regions: seq<string>, s: nat, n: nat): seq<string>
    requires s > 0 && n <= |regions|
  {
    if n == 0 then []
    else EveryNth(regions, s, n - 1) + (if (n - 1) % s == 0 then [regions[n - 1]] else [])
  }

  /** The regions kept: one every `sampleAt` when it is above 1, otherwise all of them. */
  function SubsampleRegions(regions: seq<string>, sampleAt: int): seq<string> {
    if sampleAt > 1 then EveryNth(regions, sampleAt, |regions|) else regions
  }

  lemma MulAtLeast(k: int, s: int)
    requires k >= 1 && s > 0
    ensures k * s >= s
  {
    assert k * s == (k - 1) * s + s;
    assert (k - 1) * s >= 0;
  }

  lemma DivUnique(x: int, s: int, q: int, r: int)
    requires s > 0 && 0 <= r < s && x == q * s + r
    ensures x / s == q
  {
    var a, b := x / s, x % s;
    assert x == a * s + b;
    assert (a - q) * s == a * s - q * s;
    assert (q - a) * s == q * s - a * s;
    if a > q {
      MulAtLeast(a - q, s);
    } else if a < q {
      MulAtLeast(q - a, s);
    }
  }

  /** How the number of multiples of `s` below `n` grows with `n`. */
  lemma CountStep(n: nat, s: nat)
    requires s > 0 && n > 0
    ensures (n + s - 1) / s == (n - 1 + s - 1) / s + (if (n - 1) % s == 0 then 1 else 0)
    ensures (n - 1) % s == 0 ==> ((n - 1 + s - 1) / s) * s == n - 1
  {
    var q, r := (n - 1) / s, (n - 1) % s;
    assert n - 1 == q * s + r;
    assert (q + 1) * s == q * s + s;
    DivUnique(n + s - 1, s, q + 1, r);
    if r == 0 {
      DivUnique(n - 1 + s - 1, s, q, s - 1);
    } else {
      DivUnique(n - 1 + s - 1, s, q + 1, r - 1);
    }
  }

  /**
   * The kept regions are the regions at indices 0, s, 2s, ... below n, in order: there are
   * ceil(n / s) of them and the j-th is region j * s.
   */
  lemma {:induction false} EveryNthIndices(regions: seq<string>, s: nat, n: nat)
    requires s > 0 && n <= |regions|
    ensures |EveryNth(regions, s, n)| == (n + s - 1) / s
    ensures forall j :: 0 <= j < |EveryNth(regions, s, n)| ==>
      j * s < n && EveryNth(regions, s, n)[j] == regions[j * s]
  {
    if n > 0 {
      EveryNthIndices(regions, s, n - 1);
      CountStep(n, s);
      var prev := EveryNth(regions, s, n - 1);
      var kept := EveryNth(regions, s, n);
      forall j | 0 <= j < |kept| ensures j * s < n && kept[j] == regions[j * s] {
        if j < |prev| {
          assert kept[j] == prev[j];
        } else {
          assert j == |prev| && (n - 1) % s == 0;
          assert kept[j] == regions[n - 1];
        }
      }
    }
  }

  /** With `sampleAt` above 1 exactly ceil(|regions| / sampleAt) regions are kept. */
  lemma SubsampleRegionsKept(regions: seq<string>, sampleAt: int)
    ensures sampleAt <= 1 ==> SubsampleRegions(regions, sampleAt) == regions
    ensures sampleAt > 1 ==>
      |SubsampleRegions(regions, sampleAt)| == (|regions| + sampleAt - 1) / sampleAt &&
      forall j :: 0 <= j < |SubsampleRegions(regions, sampleAt)| ==>
        j * sampleAt < |regions| && SubsampleRegions(regions, sampleAt)[j] == regions[j * sampleAt]
  {
    if sampleAt > 1 {
      EveryNthIndices(regions, sampleAt, |regions|);
    }
  }

  // ---------------------------------------------------------------------------------------
  // The mosdepth entry point

  /** The sample names, the kept regions and the loaded, normalised matrix. */
  datatype MosdepthInput = MosdepthInput(samples: seq<string>, regions: seq<string>, dm: array2<Double>)

  /**
   * runMosdepth, populating branch: refuses an empty file list, names each sample after its
   * file (`strip` stands for removing the directory and the result extension), takes the
   * regions of the first file, keeps one region every `sampleAt`, and loads the matrix over
   * the set of kept regions. `loadRegions` stands for the region loader together with the
   * BED overlap detector built from `bedExclude`: the autosomal regions of a file that
   * overlap no excluded interval.
   */
  method RunMosdepth(files: seq<string>, strip: string -> string, strategy: MosdepthUtils.RegionStrategy,
                     loadRegions: string -> seq<string>, sampleAt: int,
                     load: (string, set<string>) -> Option<seq<string>>,
                     parse: string -> Option<Double>, log2: real -> real)
    returns (r: Result<MosdepthInput>)
    ensures |files| == 0 ==> r == Failure(NoInputFilesFound)
    ensures r.Success? ==>
      |r.value.samples| == |files| &&
      (forall i :: 0 <= i < |files| ==> r.value.samples[i] == strip(files[i])) &&
      r.value.regions ==
        SubsampleRegions(MosdepthUtils.GetRegionsToUse(files[0], strategy, loadRegions), sampleAt)
    ensures |files| > 0 ==>
      var regions := SubsampleRegions(MosdepthUtils.GetRegionsToUse(files[0], strategy, loadRegions), sampleAt);
      var a := MosdepthUtils.Assembled(files, (set x | x in regions), load, parse, |files|);
      (r.Success? <==> a.Success? && !HasNaN(a.value)) &&
      (r.Success? ==> fresh(r.value.dm) && Snapshot(r.value.dm) == N.Centered(N.FoldChanged(log2, a.value))) &&
      (r.Failure? ==> r.error == if a.Failure? then a.error else InvalidNormalizedValue)
  {
    if |files| == 0 {
      return Failure(NoInputFilesFound);
    }
    var samples := seq(|files|, i requires 0 <= i < |files| => strip(files[i]));
    var regions := MosdepthUtils.GetRegionsToUse(files[0], strategy, loadRegions);
    regions := SubsampleRegions(regions, sampleAt);
    var dm := MosdepthUtils.ProcessFiles(files, (set x | x in regions), load, parse, log2);
    if dm.Failure? {
      return Failure(dm.error);
    }
    return Success(MosdepthInput(samples, regions, dm.value));
  }
}
