/** An optional value: std::optional, an absent map entry, or a result whose error is not told apart. */
module Options {
  datatype Option<T> = None | Some(value: T)
}
