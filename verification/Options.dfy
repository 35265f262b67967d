/** A value that may be absent: a C pointer that may be null, or a failed conversion. */
module Options {
  datatype Option<+T> = None | Some(value: T)
}
