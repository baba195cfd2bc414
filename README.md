# NGS-PCA core in Dafny

NGS-PCA computes principal components of sequencing-depth data. Its input is one of two
things:

- a tab-separated matrix file: a header line of sample names, then one line per region with
  the region's name and one coverage value per sample;
- a list of mosdepth result files, one per sample.

The pipeline builds a regions × samples matrix and normalises it. Each column becomes the
log2 fold change of its entries against the column median, floored at `MIN_DEPTH`. Then each
row is centred on its own median. The pipeline then decomposes the matrix and writes the
principal components, the loadings and the singular values as tab-separated text.

This project models that core:

- the normalisation (`NormalizationOperations`) and the older Genvisis-based normalisation
  (`MatrixOperations`);
- the assembly of the mosdepth matrix (`MosdepthUtils`);
- the reading of the matrix file and the sub-sampling of regions (`NGSPCA`);
- value parsing (`Utils`);
- the bookkeeping around the singular value decomposition, with the decompositions
  themselves as oracles: `SVD` and `SimpleNGSPCA` over EJML, and `RandomizedSVD` over jblas;
- the text written by `SVD` (`Svd`, `Text`). `TableRoundTrip` proves that this text reads
  back, through the matrix-file reader, as the matrix that was written.

The model's terms:

- `Double` is a Java double idealised as `NaN | Num(real)`. The arithmetic propagates NaN,
  and a division by zero gives NaN.
- The mutable matrices are `array2<Double>`. `Matrix` is the value of a matrix at one moment
  (`Snapshot`).
- Every operation that fails in the source with an exception returns `Fail`/`Failure` here,
  with an `Error` naming the case.
- The library functions are parameters: `Double.parseDouble` (`parse`),
  `Double.toString` (`toStr`), `log2`, the Genvisis statistics, the BED readers, the EJML
  decomposition and the jblas routines.

Where the system's design description and its code disagree, the model follows the code:

- the description sets the orientation flag of the randomized decomposition when the matrix
  has fewer rows than columns; `RandomizedSVD.java:26` sets it when there are more rows than
  columns, and so does `RandomizedSvd.Working`;
- the description mentions an exact decomposition as a fallback for small matrices; the
  shown `RandomizedSVD.java` has none, and neither does the model.

## Model

| member | source | states |
|---|---|---|
| NormalizationOperations.FlooredMedian | ngspca/src/main/java/org/pankratzlab/ngspca/NormalizationOperations.java:16-48 | the floored column median is NaN exactly when every entry is NaN; otherwise it is at least MIN_DEPTH and at least the median, and it equals the median when the median is already at least MIN_DEPTH |
| NormalizationOperations.RatioPositive | ngspca/src/main/java/org/pankratzlab/ngspca/NormalizationOperations.java:48-53 | given a floored median, the argument passed to log2 is a number and strictly positive |
| NormalizationOperations.StandardNaN | ngspca/src/main/java/org/pankratzlab/ngspca/NormalizationOperations.java:52-54 | the normalised value is NaN exactly when the entry or the median is NaN; otherwise it is log2 of a positive ratio |
| NormalizationOperations.ColumnMedians | ngspca/src/main/java/org/pankratzlab/ngspca/NormalizationOperations.java:40-49 | one median per column, the c-th being the floored median of column c of the original matrix |
| NormalizationOperations.FoldChangedNaN | ngspca/src/main/java/org/pankratzlab/ngspca/NormalizationOperations.java:50-58 | the fold-changed matrix has a NaN exactly when the input has one, so the NaN guard fires exactly on NaN inputs |
| NormalizationOperations.CenteredRow | ngspca/src/main/java/org/pankratzlab/ngspca/NormalizationOperations.java:75-84 | each entry of a centred row is the pre-centring entry minus the median of the whole pre-centring row |
| NormalizationOperations.CenterRowMedianZero | ngspca/src/main/java/org/pankratzlab/ngspca/NormalizationOperations.java:74-85 | a row with a number in it has median 0 once centred |
| NormalizationOperations.CenteredRowsMedianZero | ngspca/src/main/java/org/pankratzlab/ngspca/NormalizationOperations.java:27-32 | a NaN-free matrix with at least one column stays NaN-free when centred, and every row's median becomes 0 |
| NormalizationOperations.FirstNaNExists | ngspca/src/main/java/org/pankratzlab/ngspca/NormalizationOperations.java:50-57 | a matrix has a first NaN in row-major order exactly when it has a NaN, and that first NaN is unique |
| NormalizationOperations.OverwrittenBefore | ngspca/src/main/java/org/pankratzlab/ngspca/NormalizationOperations.java:50-58 | the entries before a position in row-major order come from the new matrix and all later ones from the old |
| NormalizationOperations.FlooredColumnMedians | ngspca/src/main/java/org/pankratzlab/ngspca/NormalizationOperations.java:40-49 | fills a fresh array whose c-th entry is the floored median of column c, read before any entry is overwritten |
| NormalizationOperations.ComputeFoldChangeByColumn | ngspca/src/main/java/org/pankratzlab/ngspca/NormalizationOperations.java:39-61 | passes exactly when the fold-changed matrix has no NaN; then the matrix is the fold-changed one. On a NaN it fails with InvalidNormalizedValue, and only the entries before the first NaN in row-major order are overwritten |
| NormalizationOperations.CenterRowsToMedian | ngspca/src/main/java/org/pankratzlab/ngspca/NormalizationOperations.java:74-85 | the matrix becomes every original row minus that row's median |
| NormalizationOperations.FoldChangeAndCenterRows | ngspca/src/main/java/org/pankratzlab/ngspca/NormalizationOperations.java:27-32 | fold change, then centring; it fails exactly when fold change gives a NaN, leaving the partial overwrite. On success every row's median is 0 when there is a column |
| Medians.Sort | ngspca/src/main/java/org/pankratzlab/ngspca/NormalizationOperations.java:63-65 | the sorted numbers are ascending and a permutation of the input |
| Medians.Median | ngspca/src/main/java/org/pankratzlab/ngspca/NormalizationOperations.java:63-65 | the NaN-removed median is NaN exactly when every value is NaN |
| Medians.MedianBounds | ngspca/src/main/java/org/pankratzlab/ngspca/NormalizationOperations.java:63-65 | a numeric median lies between the smallest and the largest of the input numbers |
| Medians.MedianShift | ngspca/src/main/java/org/pankratzlab/ngspca/NormalizationOperations.java:74-85 | subtracting c from every entry subtracts c from the median |
| Medians.CentredMedianIsZero | ngspca/src/main/java/org/pankratzlab/ngspca/NormalizationOperations.java:74-85 | a sequence minus its numeric median has median 0 |
| MatrixOperations.ToDenseMatrix64F | ngspca/src/main/java/org/pankratzlab/ngspca/MatrixOperations.java:23-32 | a fresh matrix with the same shape and the same entries |
| MatrixOperations.ColumnStatistics | ngspca/src/main/java/org/pankratzlab/ngspca/MatrixOperations.java:83-92 | a fresh array holding the statistic of each column, each taken from a copy of the column |
| MatrixOperations.FoldChangeAndCenter | ngspca/src/main/java/org/pankratzlab/ngspca/MatrixOperations.java:82-107 | the medians are taken before any overwrite; a positive entry becomes log2(entry / median) and any other entry 0; then the rows are centred |
| MatrixOperations.CenterRowsToMedian | ngspca/src/main/java/org/pankratzlab/ngspca/MatrixOperations.java:113-121 | every row becomes its original values minus the Genvisis median of that row |
| MatrixOperations.ScaleAndCenterColumns | ngspca/src/main/java/org/pankratzlab/ngspca/MatrixOperations.java:127-145 | every entry becomes (v − mean) / sd, with the mean and sd of its original column |
| MatrixOperations.ScaleByMethod | ngspca/src/main/java/org/pankratzlab/ngspca/MatrixOperations.java:57-72 | the matrix becomes `Scaled`: column scaling; column scaling then row centring; or fold change then centring, by the scale method |
| MatrixOperations.FoldChangeAgrees | ngspca/src/main/java/org/pankratzlab/ngspca/MatrixOperations.java:86-103 | with the NaN-removed median and the same log2, on entries at least MIN_DEPTH, the older fold change equals the newer one |
| MatrixOperations.CenteredAgrees | ngspca/src/main/java/org/pankratzlab/ngspca/MatrixOperations.java:113-121 | with the NaN-removed median, both row centrings give the same matrix |
| MatrixOperations.FcMedianRowsMedianZero | ngspca/src/main/java/org/pankratzlab/ngspca/MatrixOperations.java:66-67 | with the NaN-removed median, the FC_MEDIAN method leaves every row with median 0 when the fold change has no NaN |
| MatrixOperations.UnscaleRecovers | ngspca/src/main/java/org/pankratzlab/ngspca/MatrixOperations.java:138-144 | a scaled entry times its column's sd plus its column's mean gives back the entry, when the sd is a nonzero number |
| Utils.ConvertToDoubleArray | ngspca/src/main/java/org/pankratzlab/ngspca/Utils.java:8-19 | succeeds exactly when every field parses; then the values are the parsed fields, in order, with one per field; otherwise it fails with NonNumericMatrixValue |
| MosdepthUtils.GetRegionsToUse | ngspca/src/main/java/org/pankratzlab/ngspca/MosdepthUtils.java:43-45 | the autosomal strategy returns the autosomal loader's regions of the example file |
| MosdepthUtils.ColumnStop | ngspca/src/main/java/org/pankratzlab/ngspca/MosdepthUtils.java:140-147 | the first feature that is no number or lies past the last row; every earlier feature parses |
| MosdepthUtils.SetColumnData | ngspca/src/main/java/org/pankratzlab/ngspca/MosdepthUtils.java:134-150 | only column col changes, in rows 0 up to the stopping feature, each to its parsed value. It passes exactly when every feature fits and parses; otherwise it fails with NonNumericCoverage(file, row) or ElementOutOfBounds |
| MosdepthUtils.LoadColumn | ngspca/src/main/java/org/pankratzlab/ngspca/MosdepthUtils.java:102-109 | one file's step: a failed load fails with RegionLoadFailed(file); otherwise its features are written to the column, and the outcome and the new matrix are those of `FillColumn` on the old matrix |
| MosdepthUtils.Assembled | ngspca/src/main/java/org/pankratzlab/ngspca/MosdepthUtils.java:89-109 | a successful assembly is \|regions\| × \|files\| |
| MosdepthUtils.AssembledFailureSticks | ngspca/src/main/java/org/pankratzlab/ngspca/MosdepthUtils.java:102-109 | once a file fails, the whole assembly fails with that file's error |
| MosdepthUtils.AssembledColumns | ngspca/src/main/java/org/pankratzlab/ngspca/MosdepthUtils.java:95-109 | in a successful assembly, column c holds the parsed features of file c from row 0, and every other entry is 0 |
| MosdepthUtils.FillColumns | ngspca/src/main/java/org/pankratzlab/ngspca/MosdepthUtils.java:95-109 | starting from zeros, it fills the columns in file order; it passes exactly when the assembly succeeds, leaving the assembled matrix, and otherwise fails with the assembly's error |
| MosdepthUtils.LoadAndNormalizeData | ngspca/src/main/java/org/pankratzlab/ngspca/MosdepthUtils.java:81-132 | succeeds exactly when the assembly succeeds and has no NaN; the result is the normalised assembly, and every row's median is 0 when there is a file |
| MosdepthUtils.ProcessFiles | ngspca/src/main/java/org/pankratzlab/ngspca/MosdepthUtils.java:62-70 | an empty file list fails with NoInputFiles; otherwise it is the load and normalisation |
| NGSPCA.FirstColumn | ngspca/src/main/java/org/pankratzlab/ngspca/FileOps.java:107-128 | the first field of every line, or the empty list when some line has no field |
| NGSPCA.DataRows | ngspca/src/main/java/org/pankratzlab/ngspca/NGSPCA.java:60-67 | \|lines\| − 1 rows of n values; row r is the parsed fields after the name on line r + 1 |
| NGSPCA.ReadInputMatrixContents | ngspca/src/main/java/org/pankratzlab/ngspca/NGSPCA.java:42-67 | a successful read has a header and at least one data line; the samples are the header fields after the first; region i is the first field of line i + 1; row i holds that line's remaining fields parsed, one per sample |
| NGSPCA.SetRow | ngspca/src/main/java/org/pankratzlab/ngspca/NGSPCA.java:65-67 | passes exactly when the row has one value per column; then only that row changes, and otherwise nothing changes and it fails with RowLengthMismatch |
| NGSPCA.FillRow | ngspca/src/main/java/org/pankratzlab/ngspca/NGSPCA.java:64-67 | one data line becomes its row exactly when it has no problem; otherwise it fails with that line's problem |
| NGSPCA.FillRows | ngspca/src/main/java/org/pankratzlab/ngspca/NGSPCA.java:59-67 | starting from zeros, it passes exactly when no data line has a problem, leaving the data rows; otherwise it fails with the first bad line's problem |
| NGSPCA.RunInputMatrix | ngspca/src/main/java/org/pankratzlab/ngspca/NGSPCA.java:42-71 | succeeds exactly when the file reads and, when normalising, has no NaN. It returns the file's samples and regions and a fresh matrix holding the read values, normalised only when normMatrix is set. The read's error or InvalidNormalizedValue otherwise |
| NGSPCA.EveryNthIndices | ngspca/src/main/java/org/pankratzlab/ngspca/NGSPCA.java:145-146 | keeping every s-th of the first n regions keeps ⌈n/s⌉ of them, the j-th being region j·s |
| NGSPCA.SubsampleRegionsKept | ngspca/src/main/java/org/pankratzlab/ngspca/NGSPCA.java:142-149 | with sampleAt ≤ 1 all regions are kept; otherwise exactly the regions at multiples of sampleAt, in order |
| NGSPCA.RunMosdepth | ngspca/src/main/java/org/pankratzlab/ngspca/NGSPCA.java:122-160 | no files fails with NoInputFilesFound. Each sample is named after its file, in file order. The regions are those `loadRegions` gives for the first file (its autosomal regions left after the exclusion filter, which is a parameter), sub-sampled. The matrix is the normalised assembly over them, and success happens exactly when the assembly succeeds with no NaN |
| Svd.NumberedHeaderDistinct | ngspca/src/main/java/org/pankratzlab/ngspca/SVD.java:149-155 | the numbered column names kind1 … kindn are pairwise distinct |
| Svd.GetNumberedColumnHeader | ngspca/src/main/java/org/pankratzlab/ngspca/SVD.java:149-155 | returns kind1 … kindn, n names, none when n is negative, pairwise distinct |
| Svd.Cells | ngspca/src/main/java/org/pankratzlab/ngspca/SVD.java:171-186 | one cell per output column, the c-th rendering m[c][r] when transposed and m[r][c] otherwise |
| Svd.TableHeaderFields | ngspca/src/main/java/org/pankratzlab/ngspca/SVD.java:162-167 | the header line splits back into the row title followed by the column names |
| Svd.TableRowFields | ngspca/src/main/java/org/pankratzlab/ngspca/SVD.java:171-186 | line 1 + r splits back into the r-th output row name followed by its cells |
| Svd.DumpMatrix | ngspca/src/main/java/org/pankratzlab/ngspca/SVD.java:157-192 | returns the header line and then one line per output row name, each the tab-join of the name and its cells |
| Svd.SVD.constructor | ngspca/src/main/java/org/pankratzlab/ngspca/SVD.java:49-53 | keeps the two name lists; nothing is decomposed yet |
| Svd.SVD.ComputeSVD | ngspca/src/main/java/org/pankratzlab/ngspca/SVD.java:61-89 | passes exactly when both dimensions match the name lists. A column mismatch fails with MismatchedColumnLengths; otherwise a row mismatch fails with MismatchedRowLengths, before any decomposition and with no field changed. On success it keeps W and the first min(requested, W rows, Vᵗ columns) rows of Vᵗ, never more than requested, and exactly min(rows, columns) on a shortfall |
| Svd.SVD.GetSingularValues | ngspca/src/main/java/org/pankratzlab/ngspca/SVD.java:95-101 | numComponents values, the i-th being W[i][i] |
| Svd.SVD.DumpPCsToText | ngspca/src/main/java/org/pankratzlab/ngspca/SVD.java:107-114 | the transposed table of Vᵗ titled SAMPLE, with columns PC1 … and one line per original column name |
| Svd.Loadings | ngspca/src/main/java/org/pankratzlab/ngspca/SVD.java:194-213 | the loadings are m.rows × k, entry (r, c) being the dot product of row r of m with row c of Vᵗ, divided by σ_c |
| Svd.LoadingsAreProjection | ngspca/src/main/java/org/pankratzlab/ngspca/SVD.java:194-221 | entry (r, c) of the loadings is entry (r, c) of m·V divided by the c-th singular value |
| Svd.SVD.ComputeLoadings | ngspca/src/main/java/org/pankratzlab/ngspca/SVD.java:194-213 | returns the loadings of the current matrix |
| Svd.GetLoading | ngspca/src/main/java/org/pankratzlab/ngspca/SVD.java:215-221 | the left-to-right sum of data[i]·basis[i], divided by the singular value |
| Svd.SVD.ComputeAndDumpLoadings | ngspca/src/main/java/org/pankratzlab/ngspca/SVD.java:121-126 | the untransposed table of the loadings titled MARKER, with columns Loading1 … and one line per original row name |
| Svd.SVD.DumpSingularValuesToText | ngspca/src/main/java/org/pankratzlab/ngspca/SVD.java:132-147 | the newline-join of the header SINGULAR_VALUES⇥PC and one line per component, built by a loop |
| Svd.SingularValuesReadBack | ngspca/src/main/java/org/pankratzlab/ngspca/SVD.java:133-138 | the singular-value text has 1 + k lines; line 0 is the header, and line 1 + c splits into the zero-based index c and the rendering of W[c][c] |
| RandomizedSvd.Working | ngspca/src/main/java/org/pankratzlab/ngspca/RandomizedSVD.java:26-32 | the working matrix is Aᵗ exactly when A has more rows than columns, and it has min(rows, cols) rows |
| RandomizedSvd.RangeBasis | ngspca/src/main/java/org/pankratzlab/ngspca/RandomizedSVD.java:34-42 | the basis has the working row count and at least min(working rows, k + p) columns |
| RandomizedSvd.Project | ngspca/src/main/java/org/pankratzlab/ngspca/RandomizedSVD.java:43-44 | the projected factors have the working row count, at least k columns and k singular values, and V of the working column count |
| RandomizedSvd.FitResult | ngspca/src/main/java/org/pankratzlab/ngspca/RandomizedSVD.java:27-29 | the three results are rows × k, k values and columns × k of the original A |
| RandomizedSvd.FitOfTranspose | ngspca/src/main/java/org/pankratzlab/ngspca/RandomizedSVD.java:46-57 | for the same random sketch, fitting Aᵗ of a non-square A gives the result of A with the first and third results swapped |
| RandomizedSvd.RandomizedSVD.constructor | ngspca/src/main/java/org/pankratzlab/ngspca/RandomizedSVD.java:13-23 | sets the component and iteration counts; numOversamples stays 10 |
| RandomizedSvd.RandomizedSVD.RangeOf | ngspca/src/main/java/org/pankratzlab/ngspca/RandomizedSVD.java:34-42 | the power-iteration loop returns the range basis |
| RandomizedSvd.RandomizedSVD.Fit | ngspca/src/main/java/org/pankratzlab/ngspca/RandomizedSVD.java:25-59 | transpose is set exactly when A has more rows than columns. The results are fresh and hold the first k columns of Q·U_B, the first k singular values and the first k columns of V_B, swapped when transposed |
| RandomizedSvd.RandomizedSVD.CopyResults | ngspca/src/main/java/org/pankratzlab/ngspca/RandomizedSVD.java:46-57 | column i < k of each output matrix becomes column i of its factor, and rsvd[1] the first k singular values |
| SimpleNgspca.SimpleNGSPCA.Create | ngspca/src/main/java/org/pankratzlab/ngspca/SimpleNGSPCA.java:52-63 | succeeds exactly when both dimensions match the name lists; the column check comes first, then the row check |
| SimpleNgspca.SimpleNGSPCA.ComputeSVD | ngspca/src/main/java/org/pankratzlab/ngspca/SimpleNGSPCA.java:65-92 | w holds min(W rows, W cols) singular values, the i-th being W[i][i]; v is a fresh copy of Vᵗ |
| SimpleNgspca.CopyOf | ngspca/src/main/java/org/pankratzlab/ngspca/SimpleNGSPCA.java:86-91 | a fresh matrix with the shape and the entries of tv, made by adding into zeros |
| TableRoundTrip.TableReadsBack | ngspca/src/main/java/org/pankratzlab/ngspca/SVD.java:157-192 | a table written by dumpMatrix reads back through the matrix-file reader as its column names, its row names and the matrix as shown (transposed or not), when the names are tab-free, the last column name is non-empty and the rendering parses back |
| TableRoundTrip.PCsFileReadsBack | ngspca/src/main/java/org/pankratzlab/ngspca/SVD.java:107-114 | the PCs file reads back as the PC names, the sample names and Vᵗ transposed |
| TableRoundTrip.LoadingsFileReadsBack | ngspca/src/main/java/org/pankratzlab/ngspca/SVD.java:121-126 | the loadings file reads back as the loading names, the region names and the loadings matrix |
| Text.ParseNatToString | ngspca/src/main/java/org/pankratzlab/ngspca/SVD.java:136-136 | the decimal rendering of an index reads back as that index |
| Text.FieldsOfJoin | ngspca/src/main/java/org/pankratzlab/ngspca/SVD.java:162-186 | splitting a tab-joined line at the tab gives back its parts, when none contains a tab |
| Text.JavaSplitOfJoin | ngspca/src/main/java/org/pankratzlab/ngspca/NGSPCA.java:64-64 | String.split with trailing empty fields dropped gives back the parts of a joined line whose last part is non-empty |

## Left out

- I/O is not modelled. A file is the sequence of its lines, or its text. Gzip, the serialised
  matrix cache (NGSPCA.java:54-76, 151-166), directory listing and FileOps' writers are left
  out, and so is the logging.
- `NGSPCA.computeSVD` and `main` are not modelled (NGSPCA.java:176-249). They call a
  `RandomizedSVD` constructor and a five-argument `fit` that `RandomizedSVD.java` does not
  have.
- The NGSPCA.java calls to a three-argument `convertToDoubleArray` and a five-argument
  `processFiles` are modelled through the shown two- and four-argument versions. MosdepthUtils.java:129 calls a one-argument
  `foldChangeAndCenterRows`; the model calls the shown one with `log2` as its parameter.
- NGSPCA.RunMosdepth: NGSPCA.java:138-141 passes a `BEDOverlapDetector` built from
  `bedExclude` to a four-argument `getRegionsToUse`. The model connects that call to the shown
  three-argument version and folds the exclusion into the `loadRegions` parameter. The overlap
  filter itself, and its count of excluded regions, are not modelled.
- The thread pool of `loadAndNormalizeData` is sequential here, in file order. That is the
  order `invokeAll` returns the results in and the order the column counter hands out
  columns.
- The region-strategy switch (MosdepthUtils.java:46-49) has only the autosomal case, because
  the enum has one value; the `default` throw is unreachable.
- `stripDirectoryAndExtension`, the BED readers and the autosomal-region loader are
  parameters.
- Floating point is idealised:
  - values are reals with NaN, and there is no infinity, rounding or overflow;
  - a division by zero gives NaN where Java gives an infinity;
  - `Math.log`-based `log2`, `Double.parseDouble`, `Double.toString` and the Genvisis
    `median`/`mean`/`stdev`/`log2` are parameters.
  - `TableRoundTrip` assumes as a hypothesis that `toStr` renders without tabs, renders
    non-empty, and parses back.
- The decompositions are oracles: EJML's `SvdImplicitQrDecompose_D64` and jblas' `randn`, `lu`,
  `qr` and `fullSVD` are parameters.
  - `Ejml.NonCompactShapes` and `RandomizedSvd.Shapes` state only the shapes of their
    results.
  - Orthogonality, accuracy and convergence are not proved, and neither are the random
    seed's effects.
- Svd.SVD.ComputeSVD: `SingularOps.descendingOrder` (SVD.java:77) is not modelled. The
  factors the oracle returns are taken to be sorted already. The reshape of Vᵗ
  (SVD.java:87) is modelled as keeping its first rows. Whether `getW(null)` and
  `getV(null, true)` alias the decomposition's own state is invisible here.
- SimpleNgspca.SimpleNGSPCA.ComputeSVD: its `descendingOrder` call (SimpleNGSPCA.java:79)
  is left out for the same reason.
- Svd.SVD.ComputeSVD: the requested number of components is a `nat`, so a negative request
  is not modelled.
- RandomizedSvd.RandomizedSVD.Fit: the following are not modelled:
  - `niters` is an `int`, and a negative count runs no iteration, as in the source;
  - `numComponents` is a `nat`, and `numComponents <= min(rows, cols)` is a precondition
    because Java would throw from `getColumn` otherwise;
  - the results are empty arrays before the first `fit`, where Java has null;
  - the in-place `mmuli` is modelled as a value product.
- Svd.SVD.DumpPCsToText: it requires a decomposition to have run. Before `computeSVD`, Java
  throws a NullPointerException from `svd.getV` (SVD.java:109); the program calls it only
  after `computeSVD`.
- Svd.SVD.ComputeLoadings: it requires the matrix to be at least as wide as Vᵗ. Java would
  throw from `getLoading` (SVD.java:217-218) otherwise; the program passes the decomposed
  matrix itself, whose width is that of Vᵗ.
- Svd.DumpMatrix: it requires the output names to fit the matrix, which its two callers
  guarantee; EJML's `get` would throw otherwise.
- The exception `dm.set` throws in `setColumnData` past the last row is modelled as the
  failure ElementOutOfBounds.
- The `copyOfRange` failure for a line with no field cannot be reached: such a line already
  empties the region list, which then fails with EmptyNameList.
- File-header reading: a missing file is not modelled (FileOps.java:167-172). An empty file
  fails with NoHeaderLine, where Java throws from `findFirst().get()`.
- SimpleNgspca.SimpleNGSPCA.Create: the constructor that throws is modelled as a static
  `Create` that returns a `Result`. The commented-out code and the command line of
  SimpleNGSPCA.java (94-254) are left out.
- CmdLine.java and BedUtils.java are not part of this model.
