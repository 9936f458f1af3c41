/** Bytes as the search program reads them from its input files. */
module Bytes {

  /** One byte of a file, read as an unsigned value. */
  newtype byte = x: int | 0 <= x < 256

  const NUL: byte := 0
  const LF: byte := 10
  const CR: byte := 13
  const SPACE: byte := 32

  /** A byte sequence that is a whole C string: no terminator inside it. */
  predicate NoNul(s: seq<byte>)
  {
    forall i | 0 <= i < |s| :: s[i] != NUL
  }

  datatype Option<T> = None | Some(value: T)
}
