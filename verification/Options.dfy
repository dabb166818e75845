/** The result of a computation that may have none. */
module Options {
  datatype Option<+T> = None | Some(value: T)
}
