/** A value that may be missing: a nil pointer, an absent map entry or an error that did not occur. */
module Options {
  datatype Option<+T> = None | Some(value: T)
}
