/** A value that may be absent: the null pointers and the not-found answers of the sources. */
module Options {
  datatype Option<+T> = None | Some(value: T)
}
