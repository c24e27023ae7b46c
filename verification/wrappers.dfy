/** The optional value the program returns from both of its operations. */
module Wrappers {

  /** Rust's `Option<T>`: `None` is the only failure signal the core gives. */
  datatype Option<+T> = None | Some(value: T)
}
