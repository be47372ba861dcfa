/** Option and Result: the model's stand-ins for a nullable reference and for
    an operation that either returns a value or throws. */
module Wrappers {

  /** A value that may be absent (`null` in the store). */
  datatype Option<+T> = None | Some(value: T)

  /** The outcome of an operation that either returns or throws `error`. */
  datatype Result<+T, +E> = Success(value: T) | Failure(error: E)
}
