/** The failure-carrying result used throughout the model: `None` stands for a
    Rust panic (an `unwrap` on a missing value, an index out of range, an
    explicit `panic!`), `Some(v)` for a normal return. */
module Wrappers {
  datatype Option<+T> = None | Some(value: T)
}
