/** The conventional optional value, for JavaScript's null and undefined. */
module Options {
  datatype Option<+T> = None | Some(value: T)
}

/** Bytes as numbers. */
module Bytes {
  type byte = b: int | 0 <= b < 256
}
