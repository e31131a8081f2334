/** Failure-carrying result types shared by the assembler modules. */
module Wrappers {

  datatype Option<+T> = None | Some(value: T)

  datatype Result<+T, +E> = Ok(value: T) | Err(error: E)

  /** The outcome of an operation that produces no value, only success or an error. */
  datatype Outcome<+E> = Pass | Fail(error: E)
}
