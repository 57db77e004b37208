/** Optional values and results, used for Go's nil pointers and its
    (value, error) returns. */
module Wrappers {

  /** A value that may be absent: a nil pointer is `None`. */
  datatype Option<+T> = None | Some(value: T)

  /** A check that either passes or fails with an error (Go's `error`, nil on success). */
  datatype Outcome<+E> = Pass | Fail(error: E)

  /** A value or an error (Go's `(value, error)` pair, the value nil on error). */
  datatype Result<+T, +E> = Ok(value: T) | Err(error: E)
}
