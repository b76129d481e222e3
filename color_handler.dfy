/** The packed-colour argument handler: a colour travels as four bytes,
    one per channel, in the order red, green, blue, alpha. Each channel
    (0..255) is stored as the signed byte with the same bits. */
module ColorHandler {
  import opened SignedBytes
  import opened ByteBuffers

  /** An RGBA colour; two colours are equal when all four channels are. */
  datatype Color = Color(red: Channel, green: Channel, blue: Channel, alpha: Channel)

  /** Number of bytes one colour occupies in a buffer. */
  const ColorSize: nat := 4

  /** The channels in wire order. */
  function Channels(c: Color): (s: seq<Channel>)
    ensures |s| == ColorSize
  {
    [c.red, c.green, c.blue, c.alpha]
  }

  /** The bytes `serialize` writes for `c`: exactly four, each of which reads
      back as the channel it was written for. */
  function Encode(c: Color): (s: seq<JByte>)
    ensures |s| == ColorSize
    ensures forall k :: 0 <= k < ColorSize ==> ToUnsignedInt(s[k]) == Channels(c)[k]
  {
    [ToSignedByte(c.red), ToSignedByte(c.green), ToSignedByte(c.blue), ToSignedByte(c.alpha)]
  }

  /** What `parse` makes of the readable bytes `s`: an underflow when fewer
      than four remain, otherwise the colour whose encoding is the first four. */
  function Decode(s: seq<JByte>): (r: Result<Color>)
    ensures r.Err? <==> |s| < ColorSize
    ensures r.Err? ==> r.error == BufferUnderflow
    ensures r.Ok? ==> Encode(r.value) == s[..ColorSize]
  {
    if |s| < ColorSize then Err(BufferUnderflow)
    else
      var c := Color(ToUnsignedInt(s[0]), ToUnsignedInt(s[1]), ToUnsignedInt(s[2]), ToUnsignedInt(s[3]));
      SignedRoundTrip(s[0]);
      SignedRoundTrip(s[1]);
      SignedRoundTrip(s[2]);
      SignedRoundTrip(s[3]);
      assert Encode(c) == s[..ColorSize];
      Ok(c)
  }

  /** Decoding an encoded colour gives the colour back. */
  lemma DecodeEncode(c: Color)
    ensures Decode(Encode(c)) == Ok(c)
  {
    var e := Encode(c);
    assert ToUnsignedInt(e[0]) == c.red && ToUnsignedInt(e[1]) == c.green;
    assert ToUnsignedInt(e[2]) == c.blue && ToUnsignedInt(e[3]) == c.alpha;
  }

  /** Decoding looks at the first four readable bytes only. */
  lemma DecodePrefix(s: seq<JByte>, t: seq<JByte>)
    requires |s| >= ColorSize
    ensures Decode(s + t) == Decode(s)
  {
    assert (s + t)[..ColorSize] == s[..ColorSize];
  }

  /** Different colours never share an encoding. */
  lemma EncodeInjective(c1: Color, c2: Color)
    ensures Encode(c1) == Encode(c2) <==> c1 == c2
  {
    DecodeEncode(c1);
    DecodeEncode(c2);
  }

  /** A channel of 128 or more is the one that becomes a negative byte. */
  lemma HighChannelsEncodeNegative(c: Color, k: nat)
    requires k < ColorSize
    ensures Encode(c)[k] < 0 <==> Channels(c)[k] >= 128
  {
    ToSignedByteOnChannel(Channels(c)[k]);
  }

  /** `serialize`: four relative puts, red first. When fewer than four bytes
      of room remain, the puts that fit are made and the next one throws. */
  method Serialize(buffer: ByteBuffer, c: Color) returns (r: Outcome)
    requires buffer.Valid()
    modifies buffer`position, buffer.data
    ensures buffer.Valid() && buffer.limit == old(buffer.limit)
    ensures r.Pass? <==> old(buffer.Remaining()) >= ColorSize
    ensures r.Fail? ==> r.error == BufferOverflow
    ensures var n := if old(buffer.Remaining()) < ColorSize then old(buffer.Remaining()) else ColorSize;
      && buffer.position == old(buffer.position) + n
      && buffer.data[..] == Overwrite(old(buffer.data[..]), old(buffer.position), Encode(c)[..n])
  {
    var e := Encode(c);
    var ok := buffer.Put(ToSignedByte(c.red));
    if !ok { return Fail(BufferOverflow); }
    assert buffer.data[..] == Overwrite(old(buffer.data[..]), old(buffer.position), e[..1]);
    ok := buffer.Put(ToSignedByte(c.green));
    if !ok { return Fail(BufferOverflow); }
    assert buffer.data[..] == Overwrite(old(buffer.data[..]), old(buffer.position), e[..2]);
    ok := buffer.Put(ToSignedByte(c.blue));
    if !ok { return Fail(BufferOverflow); }
    assert buffer.data[..] == Overwrite(old(buffer.data[..]), old(buffer.position), e[..3]);
    ok := buffer.Put(ToSignedByte(c.alpha));
    if !ok { return Fail(BufferOverflow); }
    assert buffer.data[..] == Overwrite(old(buffer.data[..]), old(buffer.position), e[..4]);
    r := Pass;
  }

  /** `parse`: four relative gets, red first; the first get that finds the
      cursor at the limit throws an underflow. */
  method Parse(buffer: ByteBuffer) returns (r: Result<Color>)
    requires buffer.Valid()
    modifies buffer`position
    ensures buffer.Valid() && buffer.limit == old(buffer.limit)
    ensures r == Decode(old(buffer.Readable()))
    ensures buffer.position == old(buffer.position)
      + if old(buffer.Remaining()) < ColorSize then old(buffer.Remaining()) else ColorSize
  {
    ghost var s := buffer.Readable();
    var red := buffer.Get();
    if red.Err? { return Err(red.error); }
    var green := buffer.Get();
    if green.Err? { return Err(green.error); }
    var blue := buffer.Get();
    if blue.Err? { return Err(blue.error); }
    var alpha := buffer.Get();
    if alpha.Err? { return Err(alpha.error); }
    r := Ok(Color(ToUnsignedInt(red.value), ToUnsignedInt(green.value),
                  ToUnsignedInt(blue.value), ToUnsignedInt(alpha.value)));
  }
}
