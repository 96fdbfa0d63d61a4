/** The optional value the Java code signals with `null`. */
module Wrappers {
  datatype Option<+T> = None | Some(value: T)
}
