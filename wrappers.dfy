/** The Option datatype used for "a match" / "no match" throughout the model. */
module Wrappers {

  datatype Option<+T> = None | Some(value: T)
}
