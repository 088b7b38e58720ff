/** The optional value used for nullable slots and missing lookups. */
module Wrappers {

  datatype Option<+T> = None | Some(value: T)
}
