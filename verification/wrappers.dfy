/** `Option` for a Ruby value that may be `nil`; `Result` for an operation
    that may raise. */
module Wrappers {

  /** `None` stands for Ruby's `nil` (a missing value). */
  datatype Option<+T> = None | Some(value: T)

  /** `Failure(e)` stands for an operation that raised the error `e`. */
  datatype Result<+R, +E> = Success(value: R) | Failure(error: E)
}
