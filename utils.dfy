/** Parsing one line of a coverage matrix into doubles. */
module Utils {
  import opened Doubles
  import opened Failures

  /**
   * Parses every field left to right into a fresh array, stopping at the first field that is
   * not a number; `parse` stands for Double.parseDouble (None where it would throw).
   */
  method ConvertToDoubleArray(line: seq<string>, parse: string -> Option<Double>)
    returns (r: Result<seq<Double>>)
    ensures r.Success? <==> forall i :: 0 <= i < |line| ==> parse(line[i]).Some?
    ensures r.Success? ==>
      |r.value| == |line| && forall i :: 0 <= i < |line| ==> r.value[i] == parse(line[i]).value
    ensures r.Failure? ==> r.error == NonNumericMatrixValue
  {
    var values := new Double[|line|](_ => Num(0.0));
    var i := 0;
    while i < |line|
      invariant 0 <= i <= |line|
      invariant forall j :: 0 <= j < i ==> parse(line[j]).Some? && values[j] == parse(line[j]).value
      modifies values
    {
      var p := parse(line[i]);
      if p.None? {
        return Failure(NonNumericMatrixValue);
      }
      values[i] := p.value;
      i := i + 1;
    }
    return Success(values[..]);
  }
}
