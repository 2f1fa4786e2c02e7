/** Go strings are byte sequences, and runes are code points. */
module Bytes {
  type byte = x: int | 0 <= x < 256
  type bytes = seq<byte>
}
