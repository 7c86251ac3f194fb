/** Option and Result values, used for JavaScript's `undefined` and for
    promises that either resolve with a value or reject with an error. */
module Wrappers {

  datatype Option<+T> = None | Some(value: T)

  datatype Result<+T, +E> = Success(value: T) | Failure(error: E)
}
