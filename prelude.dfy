/** Rust's `Option`, as the process listing takes its filter and limit. */
module Prelude {

  datatype Option<+T> = None | Some(value: T)
}
