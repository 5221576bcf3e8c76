/** Octets, as produced by `str.encode()` and consumed by `base64.b64encode`. */
module Bytes {

  type byte = x: int | 0 <= x < 0x100

  /** Splitting off the low six bits, as UTF-8 continuation bytes and
      base64 symbols both do. */
  lemma DivMod64(hi: int, lo: int)
    requires 0 <= lo < 0x40
    ensures (hi * 0x40 + lo) / 0x40 == hi && (hi * 0x40 + lo) % 0x40 == lo
  {
  }
}
