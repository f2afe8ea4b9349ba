/** Wrappers used by the model: an optional value and a
    value-or-error result. */
module Wrappers {

  /** A value that may be absent (a failed type assertion, a nil error). */
  datatype Option<+T> = None | Some(value: T)

  /** A database answer: the value, or the error the driver reported. */
  datatype Result<+T, +E> = Success(value: T) | Failure(error: E)
}
