/** Octets as the serial link and the channel buffer hold them, and their
    conversions to the bit-vector views the encoder and the `uint16_t`
    storage use. */
module Bytes {
  /** A `uint8_t`. */
  newtype byte = x: int | 0 <= x < 256

  /** Viewing a byte as eight bits and back loses nothing. */
  lemma BitsOfByte(b: byte)
    ensures (b as bv8) as byte == b
  {
    BitsValue(b);
  }

  lemma ByteOfBits(x: bv8)
    ensures (x as byte) as bv8 == x
  {
  }

  /** The eight bits of a byte, read as a number, are the byte's value. */
  lemma BitsValue(b: byte)
    ensures (b as bv8) as int == b as int
  {
    var x := BitsOf(b as int);
    ByteOfBits(x);
    assert x as byte == b;
  }

  /** Some eight bits carry the value `v`, built up from its lowest bit. */
  lemma BitsOf(v: nat) returns (x: bv8)
    requires v < 256
    ensures x as int == v
  {
    if v == 0 {
      x := 0;
    } else {
      var high := BitsOf(v / 2);
      var low: bv8 := if v % 2 == 1 then 1 else 0;
      ShiftIn(high, low);
      x := (high << 1) | low;
    }
  }

  /** Shifting seven bits up and putting a bit below them doubles and adds. */
  lemma ShiftIn(high: bv8, low: bv8)
    requires high as int < 128 && low as int < 2
    ensures ((high << 1) | low) as int == 2 * high as int + low as int
  {
  }

  /** Zero-extending eight bits to sixteen keeps their value. */
  lemma ZeroExtend(x: bv8)
    ensures (x as bv16) as int == x as int
  {
  }
}
