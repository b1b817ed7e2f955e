/** An optional value, for lookups that can fail and arguments that can be null. */
module Optional {
  datatype Option<T> = None | Some(value: T)
}
