/** The optional value used for Rust's `Result` of a parse whose error is not inspected. */
module Wrappers {

  datatype Option<+T> = None | Some(value: T)
}
