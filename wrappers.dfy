/** The Option datatype shared by the model. */
module Wrappers {

  /** A value that may be absent (`null`, `undefined`, or NaN where a number is meant). */
  datatype Option<+T> = None | Some(value: T)
}
