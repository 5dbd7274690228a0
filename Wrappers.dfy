/** Option and Result: the "missing value" and "thrown exception" of the JavaScript source. */
module Wrappers {

  datatype Option<+T> = None | Some(value: T)

  datatype Result<+T, +E> = Success(value: T) | Failure(error: E)
}
