/** Failure-compatible result types shared by the model's modules. */
module Wrappers {

  /** A value that may be absent (a failed decode, an unset identity). */
  datatype Option<+T> = None | Some(value: T)

  /** A value or the error that prevented it, as Go's `(T, error)` pairs. */
  datatype Result<+T, +E> = Success(value: T) | Failure(error: E)
}
