/** The Some/None datatype that stands for a nullable reference or value. */
module Wrappers {

  datatype Option<+T> = None | Some(value: T)
}
