/** Rust's `Option`, for the optional row count of `Pager::flush` and for the
    outcome of parsing. */
module Wrappers {
  datatype Option<+T> = None | Some(value: T)
}
