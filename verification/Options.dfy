/** A value that may be missing: a NULL, a None, an error return. */
module Options {
  datatype Option<T> = None | Some(value: T)
}
