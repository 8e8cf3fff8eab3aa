/** The optional value used across the model. */
module Wrappers {

  /** A value that may be missing: a failed decode, an absent key. */
  datatype Option<+T> = None | Some(value: T)
}
