/** A value or none (`Option` of the source). */
module Options {
  datatype Option<+T> = None | Some(value: T)
}
