/** Conversion between the signed bytes a byte buffer stores (-128..127)
    and the unsigned colour channel values 0..255 that the colour
    argument handler packs into them. */
module SignedBytes {

  /** A Java `byte`. */
  type JByte = b: int | -128 <= b <= 127

  /** One colour channel. */
  type Channel = i: int | 0 <= i <= 255

  /** Reads a signed byte as the unsigned value of the same 8 bits. */
  function ToUnsignedInt(b: JByte): (r: Channel)
    ensures (r - b) % 256 == 0
  {
    if b < 0 then b + 256 else b
  }

  /** Java's narrowing conversion `(byte) i`: keeps the low 8 bits of `i`
      and reads them as a two's-complement byte. */
  function ToSignedByte(i: int): (r: JByte)
    ensures (i - r) % 256 == 0
  {
    (i + 128) % 256 - 128
  }

  // The round-trip facts below rest on multiples of 256 between two values
  // of one 256-wide window; the solver settles that arithmetic unaided, so
  // these lemmas have empty bodies.

  /** On a channel value, the conversion subtracts 256 from values of 128 and up
      and leaves the others alone. */
  lemma ToSignedByteOnChannel(i: Channel)
    ensures ToSignedByte(i) == if i >= 128 then i - 256 else i
  {
  }

  /** Converting a byte to unsigned and back gives the byte. */
  lemma SignedRoundTrip(b: JByte)
    ensures ToSignedByte(ToUnsignedInt(b)) == b
  {
  }

  /** Converting a channel value to a signed byte and back gives the value. */
  lemma UnsignedRoundTrip(i: Channel)
    ensures ToUnsignedInt(ToSignedByte(i)) == i
  {
  }

  /** The two conversions are inverse bijections between the 256 byte values
      and the 256 channel values. */
  lemma ConversionsAreInverse()
    ensures forall b: JByte :: ToSignedByte(ToUnsignedInt(b)) == b
    ensures forall i: Channel :: ToUnsignedInt(ToSignedByte(i)) == i
  {
  }

  /** Two different bytes never read as the same channel value. */
  lemma ToUnsignedIntInjective(b1: JByte, b2: JByte)
    ensures ToUnsignedInt(b1) == ToUnsignedInt(b2) <==> b1 == b2
  {
  }
}
