/** An optional value: the result of a step that may find nothing. */
module Options {
  datatype Option<+T> = None | Some(value: T)
}
