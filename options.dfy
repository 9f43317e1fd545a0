/** Java's nullable references and `Optional` values, as a datatype. */
module Options {
  datatype Option<+T> = None | Some(value: T)
}
