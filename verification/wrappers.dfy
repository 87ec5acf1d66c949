/** Option and Result, the failure-carrying values used throughout the model.
    A thrown `Error` of the source becomes a `Failure`. */
module Wrappers {

  datatype Option<+T> = None | Some(value: T)

  datatype Result<+R, +E> = Success(value: R) | Failure(error: E)
}
