/** An optional value: a catalog field that may be missing or null. */
module Options {

  datatype Option<+T> = None | Some(value: T)
}
