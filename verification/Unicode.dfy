/** White space as Go's `unicode.IsSpace` knows it. */
module Unicode {
  predicate IsSpace(r: int) {
    || 9 <= r <= 13 || r == 0x20 || r == 0x85 || r == 0xA0 || r == 0x1680
    || 0x2000 <= r <= 0x200A || r == 0x2028 || r == 0x2029 || r == 0x202F || r == 0x205F
    || r == 0x3000
  }
}
