/** A value, or none where the code fails, halts or finds nothing. */
module Options {
  datatype Option<+T> = None | Some(value: T)
}
