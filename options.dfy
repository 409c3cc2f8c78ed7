/** The "value or nothing" wrapper used where the source produces `null` or `NaN`. */
module Options {
  datatype Option<+T> = None | Some(value: T)
}
