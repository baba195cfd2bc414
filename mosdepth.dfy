/**
 * Assembly of the regions x samples coverage matrix from mosdepth result files: file k fills
 * column k with the coverage values of its regions, then the whole matrix is normalised once.
 * The loads run on a thread pool in the original; here they run one after the other in file
 * order, which is the order their results are consumed in.
 */
module MosdepthUtils {
  import opened Doubles
  import opened Matrices
  import opened Failures
  import N = NormalizationOperations
  import Medians

  /** How regions are chosen; the only strategy keeps every autosomal region. */
  datatype RegionStrategy = Autosomal

  /**
   * The regions to use, read from one example result file; `loadAutosomal` stands for the
   * BED reader that returns the autosomal regions of a file.
   */
  function GetRegionsToUse(file: string, strategy: RegionStrategy, loadAutosomal: string -> seq<string>)
    : (regions: seq<string>)
    ensures strategy == Autosomal ==> regions == loadAutosomal(file)
  {
    match strategy
    case Autosomal => loadAutosomal(file)
  }

  /**
   * The first row from `row` on that stops setColumnData, or |names| when there is none: a
   * row whose feature name (which holds the coverage) is no number, or that lies past the
   * last row of the matrix.
   */
  function ColumnStopFrom(names: seq<string>, parse: string -> Option<Double>, rows: nat, row: nat)
    : (stop: nat)
    requires row <= |names|
    decreases |names| - row
    ensures row <= stop <= |names|
    ensures stop == row || stop <= rows
    ensures forall i :: row <= i < stop ==> parse(names[i]).Some?
    ensures stop < |names| ==> parse(names[stop]).None? || stop >= rows
  {
    if row == |names| || parse(names[row]).None? || row >= rows then row
    else ColumnStopFrom(names, parse, rows, row + 1)
  }

  /** The row at which setColumnData stops. */
  function ColumnStop(names: seq<string>, parse: string -> Option<Double>, rows: nat): (stop: nat)
    ensures stop <= |names| && stop <= rows
    ensures forall i :: 0 <= i < stop ==> parse(names[i]).Some?
    ensures stop < |names| ==> parse(names[stop]).None? || stop >= rows
  {
    ColumnStopFrom(names, parse, rows, 0)
  }

  /** The parsed values of the first `n` names. */
  function ParsedPrefix(names: seq<string>, parse: string -> Option<Double>, n: nat): (vals: seq<Double>)
    requires n <= |names|
    requires forall i :: 0 <= i < n ==> parse(names[i]).Some?
  {
    seq(n, i requires 0 <= i < n => parse(names[i]).value)
  }

  lemma ColumnWritten(dm: array2<Double>, m: Matrix, col: nat, names: seq<string>,
                      parse: string -> Option<Double>, row: nat)
    requires m.rows == dm.Length0 && m.cols == dm.Length1 && col < dm.Length1
    requires row <= |names| && row <= dm.Length0
    requires forall i :: 0 <= i < row ==> parse(names[i]).Some?
    requires forall r, c :: 0 <= r < dm.Length0 && 0 <= c < dm.Length1 ==>
      dm[r, c] == if c == col && r < row then parse(names[r]).value else m.at[r][c]
    ensures Snapshot(dm) == WithColumn(m, col, ParsedPrefix(names, parse, row))
  {
    Extensionality(Snapshot(dm), WithColumn(m, col, ParsedPrefix(names, parse, row)));
  }

  /**
   * setColumnData: writes the parsed coverage of row `row` into `dm[row, col]`, row by row,
   * and stops with an error at the first name that is no number (NumberFormatException, turned
   * into an error naming the file and row) or the first row past the matrix (the matrix's own
   * bounds check; the parse happens first). Rows before the stop stay written.
   */
  method SetColumnData(dm: array2<Double>, col: nat, inputFiles: seq<string>, names: seq<string>,
                       parse: string -> Option<Double>) returns (o: Outcome)
    requires col < dm.Length1 && col < |inputFiles|
    modifies dm
    ensures Snapshot(dm) ==
      WithColumn(old(Snapshot(dm)), col, ParsedPrefix(names, parse, ColumnStop(names, parse, dm.Length0)))
    ensures o.Pass? <==> ColumnStop(names, parse, dm.Length0) == |names|
    ensures o.Fail? ==>
      var stop := ColumnStop(names, parse, dm.Length0);
      o.error == if parse(names[stop]).None? then NonNumericCoverage(inputFiles[col], stop)
                 else ElementOutOfBounds(stop, col)
  {
    ghost var m := Snapshot(dm);
    var row := 0;
    while row < |names|
      invariant row <= |names| && row <= dm.Length0
      invariant forall i :: 0 <= i < row ==> parse(names[i]).Some?
      invariant forall r, c :: 0 <= r < dm.Length0 && 0 <= c < dm.Length1 ==>
        dm[r, c] == if c == col && r < row then parse(names[r]).value else m.at[r][c]
      modifies dm
    {
      var value := parse(names[row]);
      if value.None? {
        ColumnWritten(dm, m, col, names, parse, row);
        return Fail(NonNumericCoverage(inputFiles[col], row));
      }
      if row >= dm.Length0 {
        ColumnWritten(dm, m, col, names, parse, row);
        return Fail(ElementOutOfBounds(row, col));
      }
      dm[row, col] := value.value;
      row := row + 1;
    }
    ColumnWritten(dm, m, col, names, parse, row);
    return Pass;
  }

  /**
   * One file's contribution to the matrix: the loader's failure (an exception from the
   * future, rethrown as IllegalStateException), setColumnData's failure, or the matrix with
   * column `col` filled.
   */
  function FillColumn(m: Matrix, col: nat, files: seq<string>, features: Option<seq<string>>,
                      parse: string -> Option<Double>): Result<Matrix>
    requires col < m.cols && col < |files|
  {
    if features.None? then Failure(RegionLoadFailed(files[col]))
    else
      var names := features.value;
      var stop := ColumnStop(names, parse, m.rows);
      if stop < |names| then
        Failure(if parse(names[stop]).None? then NonNumericCoverage(files[col], stop)
                else ElementOutOfBounds(stop, col))
      else Success(WithColumn(m, col, ParsedPrefix(names, parse, stop)))
  }

  /**
   * The matrix after the first `k` files, starting from the zero `|regions| x |files|`
   * matrix; `load` stands for loading the features of a file restricted to `regions`.
   */
  function Assembled(files: seq<string>, regions: set<string>,
                     load: (string, set<string>) -> Option<seq<string>>,
                     parse: string -> Option<Double>, k: nat): (r: Result<Matrix>)
    requires k <= |files|
    ensures r.Success? ==> r.value.rows == |regions| && r.value.cols == |files|
  {
    if k == 0 then Success(Zeros(|regions|, |files|))
    else match Assembled(files, regions, load, parse, k - 1)
      case Failure(e) => Failure(e)
      case Success(m) => FillColumn(m, k - 1, files, load(files[k - 1], regions), parse)
  }

  /** Once a file has failed, the assembly fails with that file's error. */
  lemma {:induction false} AssembledFailureSticks(files: seq<string>, regions: set<string>,
                                                  load: (string, set<string>) -> Option<seq<string>>,
                                                  parse: string -> Option<Double>, k: nat, j: nat)
    requires k <= j <= |files|
    requires Assembled(files, regions, load, parse, k).Failure?
    ensures Assembled(files, regions, load, parse, j) == Assembled(files, regions, load, parse, k)
  {
    if j > k {
      AssembledFailureSticks(files, regions, load, parse, k, j - 1);
    }
  }

  /**
   * When the first `k` files assemble, file c < k loaded, all its names parsed, it had no more
   * features than there are regions, and column c holds its values topped up with zeros; the
   * columns of later files are still zero.
   */
  lemma {:induction false} AssembledColumns(files: seq<string>, regions: set<string>,
                                            load: (string, set<string>) -> Option<seq<string>>,
                                            parse: string -> Option<Double>, k: nat)
    requires k <= |files|
    requires Assembled(files, regions, load, parse, k).Success?
    ensures forall c :: 0 <= c < k ==>
      var features := load(files[c], regions);
      features.Some? && |features.value| <= |regions| &&
      forall i :: 0 <= i < |features.value| ==> parse(features.value[i]).Some?
    ensures forall r, c :: 0 <= r < |regions| && 0 <= c < |files| ==>
      var features := load(files[c], regions);
      Assembled(files, regions, load, parse, k).value.at[r][c] ==
        if c < k && r < |features.value| then parse(features.value[r]).value else Num(0.0)
  {
    if k > 0 {
      AssembledColumns(files, regions, load, parse, k - 1);
      var m := Assembled(files, regions, load, parse, k - 1).value;
      var names := load(files[k - 1], regions).value;
      var stop := ColumnStop(names, parse, m.rows);
      assert Assembled(files, regions, load, parse, k).value ==
        WithColumn(m, k - 1, ParsedPrefix(names, parse, stop));
    }
  }

  /**
   * The column loop of loadAndNormalizeData: file k's features go to column k (the column
   * counter hands out 0, 1, 2, ... in file order), stopping at the first failure.
   */
  method FillColumns(dm: array2<Double>, files: seq<string>, regions: set<string>,
                     load: (string, set<string>) -> Option<seq<string>>,
                     parse: string -> Option<Double>) returns (o: Outcome)
    requires Snapshot(dm) == Zeros(|regions|, |files|)
    modifies dm
    ensures var a := Assembled(files, regions, load, parse, |files|);
      (o.Pass? <==> a.Success?) &&
      (o.Pass? ==> Snapshot(dm) == a.value) &&
      (o.Fail? ==> o.error == a.error)
  {
    var column := 0;
    while column < |files|
      invariant column <= |files|
      invariant dm.Length0 == |regions| && dm.Length1 == |files|
      invariant Assembled(files, regions, load, parse, column) == Success(Snapshot(dm))
      modifies dm
    {
      o := LoadColumn(dm, column, files, regions, load, parse);
      if o.Fail? {
        AssembledFailureSticks(files, regions, load, parse, column + 1, |files|);
        return;
      }
      column := column + 1;
    }
    return Pass;
  }

  /** One file of the column loop: its features are loaded, then written to column `column`. */
  method LoadColumn(dm: array2<Double>, column: nat, files: seq<string>, regions: set<string>,
                    load: (string, set<string>) -> Option<seq<string>>,
                    parse: string -> Option<Double>) returns (o: Outcome)
    requires column < dm.Length1 && column < |files|
    modifies dm
    ensures var f := FillColumn(old(Snapshot(dm)), column, files, load(files[column], regions), parse);
      (o.Pass? <==> f.Success?) &&
      (o.Pass? ==> Snapshot(dm) == f.value) &&
      (o.Fail? ==> o.error == f.error)
  {
    var features := load(files[column], regions);
    if features.None? {
      return Fail(RegionLoadFailed(files[column]));
    }
    o := SetColumnData(dm, column, files, features.value, parse);
  }

  /**
   * loadAndNormalizeData: a zero matrix with one row per region and one column per file,
   * filled file by file, then normalised once. Any failure discards the matrix.
   */
  method LoadAndNormalizeData(files: seq<string>, regions: set<string>,
                              load: (string, set<string>) -> Option<seq<string>>,
                              parse: string -> Option<Double>, log2: real -> real)
    returns (r: Result<array2<Double>>)
    ensures var a := Assembled(files, regions, load, parse, |files|);
      r.Success? <==> a.Success? && !HasNaN(a.value)
    ensures var a := Assembled(files, regions, load, parse, |files|);
      r.Success? ==> fresh(r.value) && Snapshot(r.value) == N.Centered(N.FoldChanged(log2, a.value))
    ensures r.Success? && |files| > 0 ==>
      !HasNaN(Snapshot(r.value)) &&
      forall i :: 0 <= i < r.value.Length0 ==> Medians.Median(Snapshot(r.value).at[i]) == Num(0.0)
    ensures var a := Assembled(files, regions, load, parse, |files|);
      r.Failure? ==> r.error == if a.Failure? then a.error else InvalidNormalizedValue
  {
    var dm := new Double[|regions|, |files|]((_, _) => Num(0.0));
    Extensionality(Snapshot(dm), Zeros(|regions|, |files|));
    var o := FillColumns(dm, files, regions, load, parse);
    if o.Fail? {
      return Failure(o.error);
    }
    o := N.FoldChangeAndCenterRows(dm, log2);
    if o.Fail? {
      return Failure(o.error);
    }
    return Success(dm);
  }

  /** processFiles: an empty file list is refused before anything is loaded. */
  method ProcessFiles(files: seq<string>, regions: set<string>,
                      load: (string, set<string>) -> Option<seq<string>>,
                      parse: string -> Option<Double>, log2: real -> real)
    returns (r: Result<array2<Double>>)
    ensures |files| == 0 ==> r == Failure(NoInputFiles)
    ensures var a := Assembled(files, regions, load, parse, |files|);
      |files| > 0 ==> (r.Success? <==> a.Success? && !HasNaN(a.value))
    ensures var a := Assembled(files, regions, load, parse, |files|);
      r.Success? ==> fresh(r.value) && Snapshot(r.value) == N.Centered(N.FoldChanged(log2, a.value))
    ensures r.Success? ==>
      !HasNaN(Snapshot(r.value)) &&
      forall i :: 0 <= i < r.value.Length0 ==> Medians.Median(Snapshot(r.value).at[i]) == Num(0.0)
    ensures var a := Assembled(files, regions, load, parse, |files|);
      |files| > 0 && r.Failure? ==> r.error == if a.Failure? then a.error else InvalidNormalizedValue
  {
    if |files| == 0 {
      return Failure(NoInputFiles);
    }
    r := LoadAndNormalizeData(files, regions, load, parse, log2);
  }
}
