/** The optional value the model uses for Python's `None`. */
module Options {
  datatype Option<+T> = None | Some(value: T)
}
