/** Optional values and fallible results, used for Go's nil pointers and (value, error) pairs. */
module Wrappers {

  /** A value that may be absent, for a Go pointer that may be nil. */
  datatype Option<+T> = None | Some(value: T)

  /** The reply of a fallible collaborator: a value, or the reason it failed. */
  datatype Result<+R, +E> = Success(value: R) | Failure(error: E)
}
