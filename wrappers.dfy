/** Option and Result, the two failure-carrying datatypes the model uses for Go's
    `(T, error)` returns and for values that may be absent. */
module Wrappers {

  datatype Option<+T> = None | Some(value: T)

  datatype Result<+T, +E> = Success(value: T) | Failure(error: E)
}
