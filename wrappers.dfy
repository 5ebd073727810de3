/** Optional values and the outcome of a call that may raise. */
module Wrappers {

  datatype Option<+T> = None | Some(value: T)

  /** The outcome of a foreign call: its value, or the text of the exception it raised. */
  datatype Result<+T> = Ok(value: T) | Err(cause: string)
}
