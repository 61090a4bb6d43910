/** Option and Result, the two tagged values the product routes need. */
module Wrappers {

  /** A value that may be absent: an omitted query parameter, or no matching index. */
  datatype Option<+T> = None | Some(value: T)

  /** The outcome of a route handler: a value, or the kind of failure it forwards with `next`. */
  datatype Result<+T, +E> = Ok(value: T) | Err(error: E)
}
