/** Conversions between octets held as bit-vectors and their values as
    numbers. */
module Bytes {
  lemma ByteValue(v: nat)
    requires v < 256
    ensures (v as bv8) as int == v
  {
  }

  lemma IntOfByte(b: bv8)
    ensures (b as int) as bv8 == b
  {
  }
}
