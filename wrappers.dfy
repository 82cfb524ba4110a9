/** The optional value used for nullable columns and for parsed input lines. */
module Wrappers {
  datatype Option<+T> = None | Some(value: T)
}
