/** The optional value used wherever an extraction or a search can fail. */
module Wrappers {
  datatype Option<T> = None | Some(value: T)
}
