module Options {
  /** A value that may be missing; None stands for Go's zero time, a nil map or a missing result. */
  datatype Option<T> = None | Some(value: T)
}
