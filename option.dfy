/** A value that may be absent: a request field that was not sent, or an input `parseInt` could not read. */
module Optional {
  datatype Option<+T> = None | Some(value: T)
}
