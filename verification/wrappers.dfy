/** Optional values and success/failure results: the error paths of the model. */
module Wrappers {

  /** A value that may be absent; for request fields, `None` is a field the client did not send. */
  datatype Option<+T> = None | Some(value: T)

  /** The outcome of an operation that may throw: `Failure` carries what was thrown. */
  datatype Result<+T, +E> = Success(value: T) | Failure(error: E)
}
