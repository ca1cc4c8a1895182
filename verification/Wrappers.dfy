/** The optional values of the parsers and the models. */
module Wrappers {
  datatype Option<+T> = None | Some(value: T)
}
