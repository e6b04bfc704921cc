/** A Java reference that may be null, as an optional value. */
module Wrappers {

  datatype Option<T> = None | Some(value: T)
}
