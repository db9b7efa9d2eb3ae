/** A value that may be missing: Python's `None`, or a caught exception. */
module Options {
  datatype Option<T> = None | Some(value: T)
}
