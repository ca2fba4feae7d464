/** Option and Result, the failure-carrying values used wherever the modelled
    code reports an error or leaves an option unset. */
module Wrappers {

  datatype Option<+T> = None | Some(value: T)

  datatype Result<+R, +E> = Success(value: R) | Failure(error: E)
}
