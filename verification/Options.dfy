/** A value, or the NULL of the code. */
module Options {
  datatype Option<T> = None | Some(value: T)
}
