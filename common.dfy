/** Small shared types: an optional value and an octet. */
module Common {

  /** A value that may be absent (Ruby `nil`, a JavaScript `null` attribute, a failed decode). */
  datatype Option<+T> = None | Some(value: T)

  /** An octet, as produced by UTF-8 encoding, zlib and SHA-1. */
  type byte = x: int | 0 <= x < 256
}
