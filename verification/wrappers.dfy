/** Failure-carrying values used wherever the statistics handle talks to
    storage or the catalog: an optional value, and a value-or-error. */
module Wrappers {

  /** A value that may be missing (a Go nil pointer or a failed map lookup). */
  datatype Option<+T> = None | Some(value: T)

  /** The outcome of a call that can fail with an error message. */
  datatype Result<+T> = Ok(value: T) | Err(error: string)
}
