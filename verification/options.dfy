/** A value or none, for functions that are not defined on everything. */
module Options {
  datatype Option<T> = Some(value: T) | None
}
