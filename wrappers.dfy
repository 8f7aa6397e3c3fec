/** Failure-carrying results: the model's stand-in for the panics of the source. */
module Wrappers {
  datatype Result<T, E> = Ok(value: T) | Err(error: E)
}
