/** An optional value, for lookups and calls that may have no result. */
module Options {

  datatype Option<+T> = None | Some(value: T)
}
