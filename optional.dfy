/** The usual Some/None datatype, for values the source may leave undefined. */
module Optional {

  datatype Option<+T> = None | Some(value: T)
}
