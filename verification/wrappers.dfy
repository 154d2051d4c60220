/** Optional values and results with an error, as used by the parsers of this model. */
module Wrappers {

  /** A value that may be absent; Ruby's `nil` is `None`. */
  datatype Option<+T> = None | Some(value: T)

  /** The outcome of an operation that can raise: a value, or the error that stopped it. */
  datatype Result<+R, +E> = Success(value: R) | Failure(error: E)
}
