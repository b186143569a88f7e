/** Option and Result: absence of a value, and an outcome that is either a
    value or an error. */
module Wrappers {

  /** A value that may be absent; stands for a NaN cell of a data frame. */
  datatype Option<+T> = None | Some(value: T)

  /** Either a value or the error that stopped the computation. */
  datatype Result<+R, +E> = Success(value: R) | Failure(error: E)
}
