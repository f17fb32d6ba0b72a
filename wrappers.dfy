/** The usual optional value: the outcome of a conversion that may fail. */
module Wrappers {
  datatype Option<T> = None | Some(value: T)
}
