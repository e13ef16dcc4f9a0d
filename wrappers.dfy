/** Option and Result, for nil pointers and Go's (value, error) returns. */
module Wrappers {

  datatype Option<+T> = None | Some(value: T)

  /** An error carries the message the Go code formats. */
  datatype Result<+T> = Ok(value: T) | Err(msg: string)
}
