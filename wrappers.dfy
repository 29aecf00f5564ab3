/** Optional values and fallible results shared by the other modules. */
module Wrappers {

  /** A value that may be absent, like Python's `None`. */
  datatype Option<+T> = None | Some(value: T)

  /** The outcome of a call into an external service: a value, or the
      message of the exception it raised. */
  datatype Result<+T> = Ok(value: T) | Err(message: string)
}
