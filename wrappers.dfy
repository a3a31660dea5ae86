/** Optional values: a pandas cell that may hold NaN, a regular-expression
    search that may find nothing. */
module Wrappers {

  datatype Option<+T> = None | Some(value: T)

  /** The outcome of a step that can raise. */
  datatype Result<+T, +E> = Ok(value: T) | Err(error: E)
}
