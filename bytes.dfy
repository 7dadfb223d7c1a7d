/** Facts about single bytes that the length field needs. */
module Bytes {
  /** A byte value read back as an integer is the value it was made from. */
  lemma ByteRoundTrip(v: int)
    requires 0 <= v < 0x100
    ensures (v as bv8) as int == v
  {
    if v < 0x80 {
    } else {
    }
  }
}
