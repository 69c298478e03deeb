/** The failure-carrying result of an operation that the Python code lets raise. */
module Options {
  datatype Option<+T> = None | Some(value: T)
}
