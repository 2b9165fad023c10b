/** Failure-compatible result types shared by the model. */
module Wrappers {

  /** A value that may be absent; stands for a nil pointer in the source. */
  datatype Option<+T> = None | Some(value: T)

  /** Either a value or an error, for the source's `(T, error)` returns. */
  datatype Result<+R, +E> = Success(value: R) | Failure(error: E)
}
