/** Optional values and results with an error, used for request fields that may be
    absent and for a request whose handling does not produce an envelope. */
module Wrappers {

  datatype Option<+T> = None | Some(value: T)

  datatype Result<+R, +E> = Success(value: R) | Failure(error: E)
}
