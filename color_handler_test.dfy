/** The colour handler's test: the sign-conversion table, the buffer
    round trip `reparse`, and the round trips of the AWT default colours,
    opaque and with arbitrary alpha. */
module ColorHandlerTest {
  import opened SignedBytes
  import opened ByteBuffers
  import opened ColorHandler

  /** The opaque colours `java.awt.Color` names, in the test's order. */
  const DefaultColors: seq<Color> := [
    Color(0, 0, 0, 255),        // BLACK
    Color(0, 0, 255, 255),      // BLUE
    Color(0, 255, 255, 255),    // CYAN
    Color(64, 64, 64, 255),     // DARK_GRAY
    Color(128, 128, 128, 255),  // GRAY
    Color(0, 255, 0, 255),      // GREEN
    Color(192, 192, 192, 255),  // LIGHT_GRAY
    Color(255, 0, 255, 255),    // MAGENTA
    Color(255, 200, 0, 255),    // ORANGE
    Color(255, 175, 175, 255),  // PINK
    Color(255, 0, 0, 255),      // RED
    Color(255, 255, 255, 255),  // WHITE
    Color(255, 255, 0, 255)     // YELLOW
  ]

  /** The table of bytes and the channel values they must read as. */
  const TestBytes: seq<JByte> := [-128, -1, 0, 1, 127]
  const TestInts: seq<int> := [128, 255, 0, 1, 127]

  /** The colour `c` with its alpha replaced. */
  function WithAlpha(c: Color, alpha: Channel): (r: Color)
    ensures Channels(r)[..3] == Channels(c)[..3] && r.alpha == alpha
  {
    Color(c.red, c.green, c.blue, alpha)
  }

  /** The generic `reparse`, for the colour handler: allocate a buffer of
      `bufferSize` bytes, serialize into it, flip it, and parse it back. */
  method Reparse(bufferSize: int, orig: Color) returns (r: Result<Color>)
    ensures bufferSize < 0 ==> r == Err(IllegalCapacity)
    ensures 0 <= bufferSize < ColorSize ==> r == Err(BufferOverflow)
    ensures bufferSize >= ColorSize ==> r == Ok(orig)
  {
    if bufferSize < 0 { return Err(IllegalCapacity); }
    var buffer := new ByteBuffer.Allocate(bufferSize);
    var written := Serialize(buffer, orig);
    if written.Fail? { return Err(written.error); }
    buffer.Flip();
    assert buffer.Readable() == Encode(orig);
    DecodeEncode(orig);
    r := Parse(buffer);
  }

  /** The colour `reparse`, with the handler's four-byte buffer. */
  method ReparseColor(orig: Color) returns (r: Result<Color>)
    ensures r == Ok(orig)
  {
    r := Reparse(ColorSize, orig);
  }

  /** The loop of `testReconvertBytes`: each byte must read as its value,
      and the value must convert back to the byte; the first mismatch fails. */
  method CheckConversionTable(testBytes: array<JByte>, testInts: array<int>) returns (passed: bool)
    requires testBytes.Length <= testInts.Length
    ensures passed <==> forall k :: 0 <= k < testBytes.Length ==>
      ToUnsignedInt(testBytes[k]) == testInts[k] && ToSignedByte(testInts[k]) == testBytes[k]
  {
    for tni := 0 to testBytes.Length
      invariant forall k :: 0 <= k < tni ==>
        ToUnsignedInt(testBytes[k]) == testInts[k] && ToSignedByte(testInts[k]) == testBytes[k]
    {
      var origByte := testBytes[tni];
      var origInt := testInts[tni];
      var createdInt := ToUnsignedInt(origByte);
      if origInt != createdInt { return false; }
      var createdByte := ToSignedByte(createdInt);
      if origByte != createdByte { return false; }
    }
    passed := true;
  }

  /** The table of the test agrees with the conversions. */
  lemma ConversionTableHolds()
    ensures |TestBytes| == |TestInts|
    ensures forall k :: 0 <= k < |TestBytes| ==>
      ToUnsignedInt(TestBytes[k]) == TestInts[k] && ToSignedByte(TestInts[k]) == TestBytes[k]
  {
    forall k | 0 <= k < |TestBytes|
      ensures ToUnsignedInt(TestBytes[k]) == TestInts[k] && ToSignedByte(TestInts[k]) == TestBytes[k]
    {
      SignedRoundTrip(TestBytes[k]);
    }
  }

  /** `testReconvertBytes` passes. */
  method TestReconvertBytes() returns (passed: bool)
    ensures passed
  {
    var testBytes := new JByte[|TestBytes|](k requires 0 <= k < |TestBytes| => TestBytes[k]);
    var testInts := new int[|TestInts|](k requires 0 <= k < |TestInts| => TestInts[k]);
    ConversionTableHolds();
    passed := CheckConversionTable(testBytes, testInts);
  }

  /** `testReparseDefaultColors` passes: every default colour comes back
      equal, all four channels included. */
  method TestReparseDefaultColors() returns (passed: bool)
    ensures passed
  {
    for i := 0 to |DefaultColors| {
      var orig := DefaultColors[i];
      var r := ReparseColor(orig);
      if r != Ok(orig) { return false; }
    }
    passed := true;
  }

  /** `testReparseDefaultColorsAlphaed`: `alphas` stands for the draws of
      `nextInt(256)`, one per colour. A copy of the default colours gets
      those alphas in place, and every copy comes back equal. `tested` is
      the copy that was reparsed. */
  method TestReparseDefaultColorsAlphaed(alphas: seq<Channel>) returns (passed: bool, tested: seq<Color>)
    requires |alphas| == |DefaultColors|
    ensures passed
    ensures |tested| == |DefaultColors|
    ensures forall k :: 0 <= k < |tested| ==> tested[k] == WithAlpha(DefaultColors[k], alphas[k])
  {
    var n := |DefaultColors|;
    var alphaed := new Color[n](k requires 0 <= k < n => DefaultColors[k]);
    for tci := 0 to n
      invariant forall k :: 0 <= k < tci ==> alphaed[k] == WithAlpha(DefaultColors[k], alphas[k])
      invariant forall k :: tci <= k < n ==> alphaed[k] == DefaultColors[k]
    {
      var orig := alphaed[tci];
      var alpha := alphas[tci];
      alphaed[tci] := Color(orig.red, orig.green, orig.blue, alpha);
    }
    tested := alphaed[..];
    for i := 0 to n {
      var origColor := alphaed[i];
      var r := ReparseColor(origColor);
      if r != Ok(origColor) { return false, tested; }
    }
    passed := true;
  }

  /** The alphaed round trip covers the high byte: any alpha of 128 or more
      is written as a negative byte and still comes back. */
  lemma AlphaedRoundTrip(c: Color, alpha: Channel)
    ensures Decode(Encode(WithAlpha(c, alpha))) == Ok(WithAlpha(c, alpha))
    ensures alpha >= 128 <==> Encode(WithAlpha(c, alpha))[3] < 0
  {
    DecodeEncode(WithAlpha(c, alpha));
    HighChannelsEncodeNegative(WithAlpha(c, alpha), 3);
  }

  /** Every default colour is fully opaque and survives the encoding. */
  lemma DefaultColorsRoundTrip()
    ensures forall k :: 0 <= k < |DefaultColors| ==>
      DefaultColors[k].alpha == 255 && Decode(Encode(DefaultColors[k])) == Ok(DefaultColors[k])
  {
    forall k | 0 <= k < |DefaultColors|
      ensures Decode(Encode(DefaultColors[k])) == Ok(DefaultColors[k])
    {
      DecodeEncode(DefaultColors[k]);
    }
  }
}
