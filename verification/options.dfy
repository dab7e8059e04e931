/** The optional value used wherever the source has `null` or a failed regex match. */
module Options {

  datatype Option<+T> = None | Some(value: T)
}
