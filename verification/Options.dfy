/** A value or nothing: the C code's null pointers and error returns. */
module Options {
  datatype Option<+T> = None | Some(value: T)
}
