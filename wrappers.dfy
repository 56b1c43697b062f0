/** The Option, Result and Outcome types shared by the token-map modules. */
module Wrappers {

  /** An optional value: Go's nil pointer or a missing map entry is None. */
  datatype Option<+T> = None | Some(value: T)

  /** A value or an error, the shape of Go's `(T, error)` return pairs. */
  datatype Result<+T, +E> = Ok(value: T) | Err(error: E)

  /** An error or nothing, the shape of a Go function returning only `error`. */
  datatype Outcome<+E> = Pass | Fail(error: E)
}
