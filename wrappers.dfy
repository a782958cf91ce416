/** The optional value used for absent request fields and nullable columns. */
module Wrappers {

  datatype Option<+T> = None | Some(value: T)
}
