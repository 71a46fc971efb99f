/** A value that may be absent: `null`, `undefined` or `None` in the program. */
module Options {
  datatype Option<+T> = None | Some(value: T)
}
