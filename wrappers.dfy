/** The optional value shared by the parsers of the model. */
module Wrappers {
  datatype Option<T> = None | Some(value: T)
}
