/** Option: a value that may be absent, standing in for a nullable pointer. */
module Wrappers {

  datatype Option<+T> = None | Some(value: T)
}
