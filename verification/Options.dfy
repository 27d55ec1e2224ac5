module Options {
  /** A value or its absence: null pointers, failed searches. */
  datatype Option<+T> = None | Some(value: T)
}
