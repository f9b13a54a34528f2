/** Failure-compatible wrappers shared by every codec module. */
module Wrappers {

  /** An optional value, as Rust's `Option`. */
  datatype Option<+T> = None | Some(value: T)

  /** A value or an error, as Rust's `Result`. */
  datatype Result<+T, +E> = Ok(value: T) | Err(error: E)

  /**
   * The outcome of a call that may abort: `Panicked` is a failed `assert!`,
   * which unwinds instead of returning.
   */
  datatype Checked<+T> = Returned(value: T) | Panicked
}
