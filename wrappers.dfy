/** The optional result the matching functions return when nothing matches. */
module Wrappers {
  datatype Option<T> = None | Some(value: T)
}
