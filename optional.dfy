/** An optional value, used where the board produces no event. */
module Optional {
  datatype Option<+T> = None | Some(value: T)
}
