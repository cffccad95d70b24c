/** Failure-compatible wrappers used across the model. */
module Wrappers {

  /** An optional value; `None` stands for a missing (NaN / NaT) cell. */
  datatype Option<+T> = None | Some(value: T)

  /** The outcome of a computation that may fail with an error value. */
  datatype Result<+T, +E> = Success(value: T) | Failure(error: E)
}
