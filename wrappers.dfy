/** The Option type that stands in for Java's nullable values in this model. */
module Wrappers {

  datatype Option<+T> = None | Some(value: T)
}
