/** An optional value: an absent pointer or an unset argument. */
module Options {
  datatype Option<+T> = None | Some(value: T)
}
