/** Rust's `Option`, the result type of every single-pair query. */
module Options {
  datatype Option<+T> = None | Some(value: T)
}
