/** A value that may be missing: a null pointer, or the result of a failed lookup. */
module Options {
  datatype Option<T> = None | Some(value: T)
}
