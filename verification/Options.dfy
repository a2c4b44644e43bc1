/** A value that may be missing: the source's false returns, null pointers and exceptions. */
module Options {
  datatype Option<+T> = None | Some(value: T)
}
