/** The optional value used wherever the Python source returns `T | None`. */
module Options {
  datatype Option<+T> = None | Some(value: T)
}
