/** The usual Some/None datatype, used for operations of the crawler that can fail. */
module Wrappers {

  datatype Option<+T> = None | Some(value: T)
}
