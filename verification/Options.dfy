/** The optional and fallible values used by every other module. */
module Options {
  datatype Option<+T> = None | Some(value: T)

  /** `Err` stands for a thrown exception; the payload says which one. */
  datatype Result<+T, +E> = Ok(value: T) | Err(error: E)
}
