/** A value that may be absent, for the program's null pointers. */
module Options {
  datatype Option<T> = None | Some(value: T)
}
