/** A value that may be missing: a nil pointer or a missing row in the source. */
module Options {
  datatype Option<+T> = None | Some(value: T)
}
