/** A value that may be absent: a null pointer, a missing key, an exception raised instead. */
module Options {
  datatype Option<T> = None | Some(value: T)
}
