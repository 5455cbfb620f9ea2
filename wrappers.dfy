/** The optional result that the downcasts return. */
module Wrappers {
  datatype Option<+T> = None | Some(value: T)
}
