/** An optional value: the model of a pointer result that may be `NULL`. */
module Wrappers {
  datatype Option<T> = None | Some(value: T)
}
