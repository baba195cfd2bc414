/**
 * EJML's `SvdImplicitQrDecompose_D64` as a parameter: the W and Vᵗ it hands back after
 * `decompose`. In the non-compact form (`compact = false`), W is `rows x cols` with the
 * singular values on its diagonal and Vᵗ is `cols x cols`.
 */
module Ejml {
  import opened Doubles
  import opened Matrices

  /** What `getW(null)` and `getV(null, true)` return. */
  datatype SvdFactors = SvdFactors(w: Matrix, vt: Matrix)

  /** The shapes of the non-compact decomposition of `a`. */
  predicate NonCompactShapes(a: Matrix, f: SvdFactors) {
    f.w.rows == a.rows && f.w.cols == a.cols && f.vt.rows == a.cols && f.vt.cols == a.cols
  }

  /** The first `k` entries of the diagonal of `w`. */
  function Diagonal(w: Matrix, k: nat): (d: seq<Double>)
    requires k <= w.rows && k <= w.cols
    ensures |d| == k && forall i :: 0 <= i < k ==> d[i] == w.at[i][i]
  {
    seq(k, i requires 0 <= i < k => w.at[i][i])
  }
}
