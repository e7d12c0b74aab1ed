/** The usual optional value, standing in for the source's `null`. */
module Options {
  datatype Option<+T> = None | Some(value: T)
}
