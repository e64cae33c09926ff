/** The result of a search that may fail. */
module Options {
  datatype Option<+T> = None | Some(value: T)
}
