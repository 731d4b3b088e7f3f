module Wrappers {
  /** An optional value; None is a null pointer in the source. */
  datatype Option<+T> = None | Some(value: T)
}
