/** Conversions between integers and 8-bit bytes. */
module Bytes {

  /** A value in 0..255 survives the narrowing to a byte and the widening back. */
  lemma ByteRoundTrip(m: int)
    requires 0 <= m < 256
    ensures (m as bv8) as int == m
  {
  }
}
