/** A value that may be absent: `null` in the service's JavaScript. */
module Options {
  datatype Option<T> = None | Some(value: T)
}
