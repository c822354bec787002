/** What the utilities produce when they can fail. */
module Errors {
  /** The outcome of a call that may throw: `Ok` carries the returned value,
      `Err` the message of the `Error` that is thrown. */
  datatype Result<T> = Ok(value: T) | Err(message: string)

  /** A value that may be absent. */
  datatype Option<T> = None | Some(value: T)
}
