/** Optional values and the outcome of a call that may raise. */
module Wrappers {

  datatype Option<+T> = None | Some(value: T)

  /** A Python call either returns a value or raises an exception (named by `error`). */
  datatype Result<+T> = Ok(value: T) | Raised(error: string)
}
