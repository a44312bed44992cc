/** Error-first results of the external calls, as values. */
module Wrappers {

  /** A value that may be missing: the result of one read accessor, `None` when it reported an error. */
  datatype Option<T> = None | Some(value: T)

  /** What a callback in the style `callback(error, result)` receives. */
  datatype Result<T> = Ok(value: T) | Err(error: string)
}
