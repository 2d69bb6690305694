/** Failure-compatible wrappers used across the pipeline: `Option` for the
    lexer's "maybe a token" results and `Result` for everything that can fail.
    `Result` supports `:-`, which plays the role of Rust's `?` operator. */
module Wrappers {

  datatype Option<+T> = None | Some(value: T)

  datatype Result<+R, +E> = Success(value: R) | Failure(error: E) {

    predicate IsFailure() {
      Failure?
    }

    function PropagateFailure<U>(): Result<U, E>
      requires Failure?
    {
      Failure(error)
    }

    function Extract(): R
      requires Success?
    {
      value
    }
  }
}
