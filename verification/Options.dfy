/** A value that may be absent: a nil reference or a missing result. */
module Options {
  datatype Option<+T> = None | Some(value: T)
}
