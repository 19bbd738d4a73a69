/** The optional value used for `null` returns and for an unbounded depth. */
module Options {
  datatype Option<+T> = None | Some(value: T)
}
