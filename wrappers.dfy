/** Option and Result: how the model spells a value that may be absent and an
    operation that may throw one of the API's error classes. */
module Wrappers {

  datatype Option<+T> = None | Some(value: T)

  datatype Result<+R, +E> = Success(value: R) | Failure(error: E)
}
