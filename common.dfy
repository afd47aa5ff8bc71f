/** Failure-carrying wrappers shared by every module of the model. */
module Common {

  /** A value that may be absent: a SQL NULL, an empty combo box, no row found. */
  datatype Option<+T> = None | Some(value: T)

  /** The outcome of an operation that the original reports by raising or by a dialog. */
  datatype Result<+T, +E> = Ok(value: T) | Err(error: E)
}
