/** The optional values that the components share. */
module Options {
  datatype Option<+T> = None | Some(value: T)
}
