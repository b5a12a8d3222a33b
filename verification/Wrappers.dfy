/** The result types used throughout: a Go pair "(value, error)" is a Result, a Go pair
    "(value, ok)" an Option. */
module Wrappers {

  datatype Option<+T> = None | Some(value: T)

  datatype Result<+T, +E> = Success(value: T) | Failure(error: E)
}
