/** A value that may be absent, for the codec that may fail. */
module Wrappers {

  datatype Option<T> = None | Some(value: T)
}
