/** The usual optional value: a null pointer or an absent result is None. */
module Options {
  datatype Option<+T> = None | Some(value: T)
}
