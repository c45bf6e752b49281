/** Option, used where the source uses Rust's Option. */
module Wrappers {
  datatype Option<+T> = None | Some(value: T)
}
