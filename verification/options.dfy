/** The optional value used for nullable Java references and for parse outcomes. */
module Options {

  datatype Option<+T> = None | Some(value: T)

  /** A successful result or the exception that a Java call throws instead. */
  datatype Result<+T, +E> = Ok(value: T) | Err(error: E)
}
