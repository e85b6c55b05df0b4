/** Values that may be missing: a nil pointer, or the ok of a failed conversion. */
module Options {
  datatype Option<+T> = None | Some(value: T)
}
