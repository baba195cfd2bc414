/** Results and the exceptions the pipeline raises, one constructor per exception site. */
module Failures {

  datatype Option<+T> = None | Some(value: T)

  /** Why a run stopped. Each constructor names the Java exception it stands for. */
  datatype Error =
    /** IllegalArgumentException "No input files provided" from MosdepthUtils.processFiles */
    | NoInputFiles
    /** IllegalArgumentException "No input files were found" from NGSPCA.runMosdepth */
    | NoInputFilesFound
    /** IllegalArgumentException naming the file and row of a non-numeric mosdepth value */
    | NonNumericCoverage(file: string, row: nat)
    /** IllegalArgumentException from Utils.convertToDoubleArray */
    | NonNumericMatrixValue
    /** IllegalArgumentException "Invalid sample normalized value (NaN) detected" */
    | InvalidNormalizedValue
    /** IllegalArgumentException "Mismatched column lengths" */
    | MismatchedColumnLengths
    /** IllegalArgumentException "Mismatched row lengths" */
    | MismatchedRowLengths
    /** IllegalStateException wrapping a failure of the region loader for one file */
    | RegionLoadFailed(file: string)
    /** writing a matrix element outside the matrix */
    | ElementOutOfBounds(row: nat, col: nat)
    /** IndexOutOfBoundsException from List.remove(0) on an empty list */
    | EmptyNameList
    /** NoSuchElementException from reading the header line of a file with no lines */
    | NoHeaderLine
    /** NotStrictlyPositiveException from allocating a BlockRealMatrix with no rows or no columns */
    | EmptyMatrix(rows: nat, cols: nat)
    /** MatrixDimensionMismatchException from BlockRealMatrix.setRow */
    | RowLengthMismatch(expected: nat, found: nat)

  datatype Result<+T> = Success(value: T) | Failure(error: Error)

  datatype Outcome = Pass | Fail(error: Error)
}
