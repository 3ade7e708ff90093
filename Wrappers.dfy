/** Option, Outcome and Result datatypes used across the model. */
module Wrappers {

  /** A possibly missing value; `None` stands for a pandas NaN / null cell. */
  datatype Option<+T> = None | Some(value: T)

  /** The result of a check that either passes or reports an error value. */
  datatype Outcome<+E> = Pass | Fail(error: E)

  /** A computation that yields a value or an error value. */
  datatype Result<+R, +E> = Success(value: R) | Failure(error: E)
}
