/** The optional value used wherever the source passes or returns a Java null. */
module Wrappers {

  datatype Option<+T> = None | Some(value: T)
}
