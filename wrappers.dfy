/** The optional result the table returns where the source returns nil. */
module Wrappers {
  datatype Option<T> = None | Some(value: T)
}
