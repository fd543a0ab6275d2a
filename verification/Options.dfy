/** Values that may be absent: null pointers, failed lookups. */
module Options {

  datatype Option<+T> = None | Some(value: T)
}
