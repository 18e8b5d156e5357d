/** A value that may be absent: a receive that did not complete, a prompt that never ends. */
module Optional {

  datatype Option<+T> = None | Some(value: T)
}
