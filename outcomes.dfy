/** Optional arguments, the toolkit's exceptions, and results that carry either. */
module Outcomes {

  /** An optional argument; `None` plays the part of Python's `None`. */
  datatype Option<+T> = None | Some(value: T)

  /** Why an `InvalidColumnException` was raised. */
  datatype ColumnFault =
    | ColumnsNotFound   // a requested column is not in the table
    | ContainsZeros     // the table holds a zero somewhere

  /** The exceptions the modelled code raises. */
  datatype Error =
    | InvalidColumn(fault: ColumnFault)   // InvalidColumnException
    | InvalidRasterBand                   // InvalidRasterBandException

  /** Either the value the call returns or the exception it raises. */
  datatype Result<+T> = Ok(value: T) | Err(error: Error)
}
