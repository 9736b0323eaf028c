/** The optional value used for a parse result and for a cached fitness. */
module Wrappers {
  datatype Option<+T> = None | Some(value: T)
}
