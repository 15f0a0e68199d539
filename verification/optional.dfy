/** A value that may be absent: the "not found" answer of a lookup. */
module Optional {
  datatype Option<T> = None | Some(value: T)
}
