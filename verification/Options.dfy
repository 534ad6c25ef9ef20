/** The optional value every component of the model uses. */
module Options {
  datatype Option<+T> = None | Some(value: T)
}
