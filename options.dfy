/** Ruby's nil-or-value and the raise-or-return shape of the script's steps. */
module Options {

  /** A Ruby value that may be nil. */
  datatype Option<+T> = None | Some(value: T)

  /** A step that either yields a value or raises. */
  datatype Result<+T, +E> = Ok(value: T) | Err(error: E)
}
