/** A value that may be missing: the null pointers of the source. */
module Options {
  datatype Option<+T> = None | Some(value: T)
}
