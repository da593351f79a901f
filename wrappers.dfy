/** Optional values and results with an error, as the resolver returns them. */
module Wrappers {

  datatype Option<+T> = None | Some(value: T)

  /** A fully formed value or an error, never both. */
  datatype Result<+T, +E> = Ok(value: T) | Err(error: E)
}
