/** The optional value used throughout the model for "absent" / "failed to parse". */
module Options {
  datatype Option<+T> = None | Some(value: T)
}
