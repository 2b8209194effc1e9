/** The result of an operation that may give nothing. */
module Wrappers {
  datatype Option<+T> = None | Some(value: T)
}
