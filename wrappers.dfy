/** Failure-carrying wrappers shared by the other modules. */
module Wrappers {

  /** A value that may be absent; stands for Go's nil error or a value/nil pair. */
  datatype Option<+T> = None | Some(value: T)

  /** Either a result or the error that prevented it. */
  datatype Result<+T, +E> = Success(value: T) | Failure(error: E)
}
