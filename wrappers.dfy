/** Option and Result, the two failure-carrying datatypes the model uses in
    place of Rust's `Option` and of the panics and `Result` errors of the
    program. */
module Wrappers {

  datatype Option<+T> = None | Some(value: T)

  datatype Result<+R, +E> = Success(value: R) | Failure(error: E)
}
