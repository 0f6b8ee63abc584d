/** A value or JavaScript's null/undefined. */
module Options {
  datatype Option<+T> = None | Some(value: T)
}
