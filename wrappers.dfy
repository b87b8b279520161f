/** Small shared types: an optional value (Java's nullable reference) and the byte. */
module Wrappers {

  /** A value that may be absent; `None` plays the part of Java's `null`. */
  datatype Option<+T> = None | Some(value: T)

  /** A byte, as its eight-bit pattern read as an unsigned number. */
  type byte = x: int | 0 <= x < 256
}
