/** Optional values and success-or-failure results shared by the modules of this model. */
module Wrappers {

  /** A value that may be absent (a JavaScript `undefined`, or a query that found nothing). */
  datatype Option<+T> = None | Some(value: T)

  /** The outcome of an operation that either yields a value or fails with an error. */
  datatype Result<+T, +E> = Ok(value: T) | Err(error: E)
}
