/** One numeric sample of a raster band or a table column. */
module Cells {

  /**
   * A floating-point sample reduced to what the nodata logic looks at:
   * a finite value, one of the two infinities, or not-a-number.
   */
  datatype Cell = Fin(v: real) | PosInf | NegInf | NaN

  /** `np.isinf`. */
  predicate IsInfinite(c: Cell)
  {
    c.PosInf? || c.NegInf?
  }

  /** `x == y` under IEEE comparison: NaN is equal to nothing, itself included. */
  predicate IeeeEqual(x: Cell, y: Cell)
  {
    !x.NaN? && x == y
  }
}
