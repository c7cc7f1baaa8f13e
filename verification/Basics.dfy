// What several modules share: bytes, and optional values.

module Basics {
  type byte = x: int | 0 <= x < 256

  datatype Option<+T> = None | Some(value: T)
}
