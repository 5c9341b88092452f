module Options {

  /** A value that may be missing: a null pointer, an absent entry, no exception. */
  datatype Option<+T> = None | Some(value: T)
}
