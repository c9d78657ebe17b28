/** Failure-compatible wrappers used across the model: `Option` for the
    iterators' `next`, `Result` for every operation that can abort. */
module Outcomes {

  /** The conventional Some/None datatype. */
  datatype Option<+T> = None | Some(value: T)

  /** Either a value or the reason an operation aborted. */
  datatype Result<+R, +E> = Success(value: R) | Failure(error: E)
}
