/** The unit of a Node `Buffer`. */
module Octets {
  /** One byte, an integer from 0 to 255. */
  type Byte = x: int | 0 <= x < 256

  /** Appending a byte `r` to the base-256 digits `q` and taking it off again. */
  lemma DivMod256(q: int, r: int)
    requires 0 <= r < 256
    ensures (q * 256 + r) / 256 == q && (q * 256 + r) % 256 == r
  {
  }
}
