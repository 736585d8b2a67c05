/** A value that may be absent: the model of a nullable column or an optional argument. */
module Wrappers {

  datatype Option<+T> = None | Some(value: T)
}
