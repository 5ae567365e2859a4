/** The optional value used by every other module for Python's `None`. */
module Options {
  datatype Option<+T> = None | Some(value: T)
}
