/** An optional value: a dictionary key that may be absent. */
module Optional {
  datatype Option<+T> = None | Some(value: T)
}
