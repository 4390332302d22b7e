/** The optional value shared by the parsers and searches of the model. */
module Wrappers {
  datatype Option<T> = None | Some(value: T)
}
