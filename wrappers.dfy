/** Optional values and results with an error, as used across the model. */
module Wrappers {

  /** A value that may be missing: an optional YAML key, a failed rendering. */
  datatype Option<+T> = None | Some(value: T)

  /** The outcome of a step that either yields a value or raises. */
  datatype Result<+T, +E> = Ok(value: T) | Err(error: E)
}
