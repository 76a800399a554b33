/** The optional values the other modules return. */
module Options {
  datatype Option<+T> = None | Some(value: T)
}
