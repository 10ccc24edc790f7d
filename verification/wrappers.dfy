/** Optional values and outcomes that may fail, used by the metadata model and the resolver. */
module Wrappers {

  /** A value that may be absent (a `null` reference in the modelled code). */
  datatype Option<+T> = None | Some(value: T)

  /** The outcome of a computation that either completes or stops with an error. */
  datatype Result<+T, +E> = Ok(value: T) | Err(error: E)
}
