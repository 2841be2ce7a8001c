/** A value that may be absent; also a C or Java reference that may be NULL. */
module Options {
  datatype Option<+T> = None | Some(value: T)
}
