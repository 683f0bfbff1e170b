/** Small failure-carrying datatypes shared by the rest of the model. */
module Wrappers {

  /** An optional value: the model's stand-in for Rust's `Option`. */
  datatype Option<+T> = None | Some(value: T)
}
