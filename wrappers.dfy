/** Failure-carrying values: pandas' NaN/NaT as `None`, a raised error as `Failure`. */
module Wrappers {

  datatype Option<+T> = None | Some(value: T)

  datatype Result<+R, +E> = Success(value: R) | Failure(error: E)
}
