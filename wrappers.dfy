/** The error-carrying result used wherever the Go code logs an error and exits. */
module Wrappers {

  datatype Result<T, E> = Ok(value: T) | Err(error: E)
}
