/**
 * Java doubles, idealised as exact reals plus NaN. Every operation propagates NaN the way
 * IEEE 754 arithmetic does; infinities are not represented.
 */
module Doubles {

  datatype Double = NaN | Num(v: real)

  /** Math.max: NaN if either argument is NaN, otherwise the larger one. */
  function Max(a: Double, b: Double): (r: Double)
    ensures r.NaN? <==> a.NaN? || b.NaN?
    ensures r.Num? ==> (r == a || r == b) && r.v >= a.v && r.v >= b.v
  {
    if a.NaN? || b.NaN? then NaN else if a.v >= b.v then a else b
  }

  function Add(a: Double, b: Double): (r: Double)
    ensures r.NaN? <==> a.NaN? || b.NaN?
  {
    if a.NaN? || b.NaN? then NaN else Num(a.v + b.v)
  }

  function Sub(a: Double, b: Double): (r: Double)
    ensures r.NaN? <==> a.NaN? || b.NaN?
  {
    if a.NaN? || b.NaN? then NaN else Num(a.v - b.v)
  }

  function Mul(a: Double, b: Double): (r: Double)
    ensures r.NaN? <==> a.NaN? || b.NaN?
  {
    if a.NaN? || b.NaN? then NaN else Num(a.v * b.v)
  }

  /** Division; a zero divisor gives NaN (Java gives an infinity unless the numerator is 0). */
  function Div(a: Double, b: Double): (r: Double)
    ensures r.NaN? <==> a.NaN? || b.NaN? || b.v == 0.0
    ensures r.Num? ==> r.v * b.v == a.v
  {
    if a.NaN? || b.NaN? || b.v == 0.0 then NaN else Num(a.v / b.v)
  }

  /**
   * log2 of a double, given the real logarithm log2 as a parameter (it is only ever
   * applied to a positive real). A non-positive argument gives NaN.
   */
  function Log2(log2: real -> real, x: Double): (r: Double)
    ensures r.NaN? <==> x.NaN? || x.v <= 0.0
    ensures r.Num? ==> r.v == log2(x.v)
  {
    if x.NaN? || x.v <= 0.0 then NaN else Num(log2(x.v))
  }
}
