/** The value a nullable column, field or lookup holds. */
module Options {
  datatype Option<+T> = None | Some(value: T)
}
