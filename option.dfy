/** NULL-or-pointer results. */
module Optional {
  datatype Option<T> = None | Some(value: T)
}
