/** A value that may be absent, as `undefined` or `null` marks it in the source. */
module Optional {
  datatype Option<T> = None | Some(value: T)
}
