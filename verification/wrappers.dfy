/** Optional values and results with an error, for Python's `None` returns and exceptions. */
module Wrappers {

  datatype Option<T> = None | Some(value: T)

  /** The exception a Python operation raises, by class name and cause. */
  datatype Error =
    | KeyError(key: string)
    | ValueError(msg: string)
    | IndexError
    | TypeError(msg: string)
    | UnboundLocalError(name: string)

  datatype Result<T> = Ok(value: T) | Err(error: Error)
}
