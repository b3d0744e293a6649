/** Option and Result, the failure-carrying values the model uses where the
    script either finds nothing or stops with an exception. */
module Wrappers {

  datatype Option<+T> = None | Some(value: T)

  datatype Result<+T, +E> = Success(value: T) | Failure(error: E)
}
