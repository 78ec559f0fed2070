/** Optional values, standing for Rust's `Option` and for the `?` early exits on it. */
module Wrappers {

  datatype Option<+T> = None | Some(value: T)
}
