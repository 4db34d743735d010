/** Shared helper types. */
module Common {

  /** Rust's `Option<T>`. */
  datatype Option<T> = None | Some(value: T)
}
