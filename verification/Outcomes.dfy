/** A value, or the exception thrown instead of it. */
module Outcomes {
  datatype Result<+T, +E> = Ok(value: T) | Err(error: E)
}
