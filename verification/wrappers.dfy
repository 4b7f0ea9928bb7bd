/** The optional value used for calls that may throw in the source. */
module Wrappers {

  /** `None` stands for a call that threw an exception; `Some(v)` for one that returned `v`. */
  datatype Option<+T> = None | Some(value: T)
}
