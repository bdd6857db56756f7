/** The optional value used for lookups that can fail and for data that may have been released. */
module Options {
  datatype Option<T> = None | Some(value: T)
}
