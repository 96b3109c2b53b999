/** The absent-or-present value that stands for JavaScript's `null` and Rust's `Option`. */
module Wrappers {

  datatype Option<+T> = None | Some(value: T)
}
