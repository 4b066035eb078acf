/** Failure-carrying datatypes shared by the modules of the model. */
module Wrappers {

  /** A value that may be missing, e.g. the parsed datfile when parsing failed. */
  datatype Option<+T> = None | Some(value: T)

  /** Either a computed value or the exception that stopped the computation. */
  datatype Result<+R, +E> = Success(value: R) | Failure(error: E)
}
