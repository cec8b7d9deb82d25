/** Option and Result: a missing cell and an operation that can fail. */
module Wrappers {

  /** A cell that may be missing (pandas NaN). */
  datatype Option<+T> = None | Some(value: T)

  /** The outcome of an operation that may stop with an error. */
  datatype Result<+R, +E> = Success(value: R) | Failure(error: E)
}
