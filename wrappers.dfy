/** Option and Result, the failure-carrying values used across the model. */
module Wrappers {

  datatype Option<+T> = None | Some(value: T)

  /** The outcome of a computation that may raise: `Ok` with its value or `Err` with the fault. */
  datatype Result<+T, +E> = Ok(value: T) | Err(fault: E)
}
