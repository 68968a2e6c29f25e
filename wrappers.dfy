/** The usual Some/None datatype, used where the handler may find nothing. */
module Wrappers {

  datatype Option<+T> = None | Some(value: T)
}
