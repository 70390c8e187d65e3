/** A value that may be absent: a NULL pointer, or a result that does not exist. */
module Options {
  datatype Option<T> = None | Some(value: T)
}
