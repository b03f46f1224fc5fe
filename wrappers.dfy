/** The optional-value datatype used by the parsers and by the persisted file. */
module Wrappers {

  datatype Option<T> = None | Some(value: T)
}
