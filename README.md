# Packed-colour argument handler of JavaOSC

JavaOSC encodes Open Sound Control packets. Its argument-handler framework can be
extended with custom types. The example extension is a colour handler that packs
an RGBA colour into four bytes. This project models that handler and the test
that pins it down:

- the sign conversion between a signed Java `byte` (-128..127) and an unsigned
  channel value (0..255), in both directions (`signed_bytes.dfy`);
- a byte buffer in the manner of `java.nio.ByteBuffer`. It is a class over a
  fixed-size array with a `position` cursor and a `limit`. Puts and gets are
  relative and throw on overflow or underflow. `flip` is modelled too
  (`byte_buffers.dfy`);
- the handler itself (`color_handler.dfy`). `Serialize` makes four relative
  puts through `ToSignedByte`. `Parse` makes four relative gets through
  `ToUnsignedInt`. Both are proved against the pure functions `Encode` and
  `Decode`, and `Decode(Encode(c)) == Ok(c)` is proved for every colour;
- the test (`color_handler_test.dfy`): the `reparse` round trip (allocate,
  serialize, flip, parse), the conversion table, and the round trips of the
  AWT default colours, both opaque and with any alpha.

Channel order on the wire is red, green, blue, alpha. The handler's own source
file is not part of this model, so this order is a choice, made to follow
`getRed`/`getGreen`/`getBlue`/`getAlpha`. The test only asserts the round
trip, which holds for any fixed order.

JavaOSC's handler interface declares OSCSerializeException and
OSCParseException. The model instead keeps the exceptions that
`java.nio.ByteBuffer` itself would throw in these cases:
`BufferOverflow` for a put with no room left (BufferOverflowException),
`BufferUnderflow` for a get with nothing left (BufferUnderflowException), and
`IllegalCapacity` for allocating with a negative size
(IllegalArgumentException). The test never triggers any of them, because
`reparse` with the colour handler allocates 4 bytes and a colour takes exactly 4.

## Model

| member | source | states |
|---|---|---|
| SignedBytes.ToUnsignedInt | modules/core/src/test/java/com/illposed/osc/argument/handler/ColorArgumentHandlerTest.java:82-83 | the result is in 0..255 and has the same 8 bits as the byte (equal modulo 256) |
| SignedBytes.ToSignedByte | modules/core/src/test/java/com/illposed/osc/argument/handler/ColorArgumentHandlerTest.java:85-86 | the result is in -128..127 and has the same low 8 bits as the int (Java's narrowing cast) |
| SignedBytes.ToSignedByteOnChannel | modules/core/src/test/java/com/illposed/osc/argument/handler/ColorArgumentHandlerTest.java:85-86 | on 0..255 the conversion subtracts 256 from values of 128 and up, and keeps the rest |
| SignedBytes.SignedRoundTrip | modules/core/src/test/java/com/illposed/osc/argument/handler/ColorArgumentHandlerTest.java:82-86 | toSignedByte(toUnsignedInt(b)) == b for every byte b |
| SignedBytes.UnsignedRoundTrip | modules/core/src/test/java/com/illposed/osc/argument/handler/ColorArgumentHandlerTest.java:82-86 | toUnsignedInt(toSignedByte(i)) == i for every i in 0..255 |
| SignedBytes.ConversionsAreInverse | modules/core/src/test/java/com/illposed/osc/argument/handler/ColorArgumentHandlerTest.java:78-87 | the two conversions are inverse bijections between all 256 bytes and 0..255 |
| SignedBytes.ToUnsignedIntInjective | modules/core/src/test/java/com/illposed/osc/argument/handler/ColorArgumentHandlerTest.java:82-83 | two bytes read as the same channel value exactly when they are equal |
| ByteBuffers.ByteBuffer.Allocate | modules/core/src/test/java/com/illposed/osc/argument/handler/ColorArgumentHandlerTest.java:46 | a fresh zero-filled buffer of the given capacity, with position 0 and limit = capacity |
| ByteBuffers.ByteBuffer.Put | modules/core/src/test/java/com/illposed/osc/argument/handler/ColorArgumentHandlerTest.java:47 | writes at the position and advances it when position < limit; otherwise overflows and changes nothing |
| ByteBuffers.ByteBuffer.Get | modules/core/src/test/java/com/illposed/osc/argument/handler/ColorArgumentHandlerTest.java:51 | returns the byte at the position and advances it when position < limit; otherwise underflows and changes nothing |
| ByteBuffers.ByteBuffer.Flip | modules/core/src/test/java/com/illposed/osc/argument/handler/ColorArgumentHandlerTest.java:48 | limit becomes the old position and position becomes 0, so the readable region is exactly the bytes written |
| ColorHandler.Encode | modules/core/src/test/java/com/illposed/osc/argument/handler/ColorArgumentHandlerTest.java:47 | a colour takes exactly 4 bytes, and byte k reads back as channel k |
| ColorHandler.Decode | modules/core/src/test/java/com/illposed/osc/argument/handler/ColorArgumentHandlerTest.java:51 | fails with underflow exactly when fewer than 4 bytes are readable; otherwise the decoded colour re-encodes to the first 4 bytes |
| ColorHandler.DecodeEncode | modules/core/src/test/java/com/illposed/osc/argument/handler/ColorArgumentHandlerTest.java:42-52 | decoding the encoding of any colour gives that colour back |
| ColorHandler.DecodePrefix | modules/core/src/test/java/com/illposed/osc/argument/handler/ColorArgumentHandlerTest.java:48-51 | decoding depends only on the first 4 readable bytes |
| ColorHandler.EncodeInjective | modules/core/src/test/java/com/illposed/osc/argument/handler/ColorArgumentHandlerTest.java:94 | two colours have the same encoding exactly when all four channels are equal |
| ColorHandler.HighChannelsEncodeNegative | modules/core/src/test/java/com/illposed/osc/argument/handler/ColorArgumentHandlerTest.java:114-115 | a channel becomes a negative byte exactly when it is 128 or more |
| ColorHandler.Serialize | modules/core/src/test/java/com/illposed/osc/argument/handler/ColorArgumentHandlerTest.java:47 | succeeds exactly when 4 bytes of room remain; writes the prefix of the encoding that fits at the position and advances it; nothing else in the buffer changes |
| ColorHandler.Parse | modules/core/src/test/java/com/illposed/osc/argument/handler/ColorArgumentHandlerTest.java:51 | the result is the decoding of the readable bytes; position advances by 4, or by what remained when fewer than 4 did |
| ColorHandlerTest.WithAlpha | modules/core/src/test/java/com/illposed/osc/argument/handler/ColorArgumentHandlerTest.java:115 | keeps red, green and blue and sets the given alpha |
| ColorHandlerTest.Reparse | modules/core/src/test/java/com/illposed/osc/argument/handler/ColorArgumentHandlerTest.java:42-52 | with at least 4 bytes of capacity, serialize, flip and parse return the original colour; a smaller capacity overflows; a negative one is refused |
| ColorHandlerTest.ReparseColor | modules/core/src/test/java/com/illposed/osc/argument/handler/ColorArgumentHandlerTest.java:54-58 | reparse with the 4-byte buffer returns the original colour for every colour |
| ColorHandlerTest.CheckConversionTable | modules/core/src/test/java/com/illposed/osc/argument/handler/ColorArgumentHandlerTest.java:78-87 | passes exactly when every byte of the table reads as its int and that int converts back to the byte |
| ColorHandlerTest.ConversionTableHolds | modules/core/src/test/java/com/illposed/osc/argument/handler/ColorArgumentHandlerTest.java:63-87 | the table -128→128, -1→255, 0→0, 1→1, 127→127 agrees with both conversions |
| ColorHandlerTest.TestReconvertBytes | modules/core/src/test/java/com/illposed/osc/argument/handler/ColorArgumentHandlerTest.java:60-88 | testReconvertBytes passes |
| ColorHandlerTest.TestReparseDefaultColors | modules/core/src/test/java/com/illposed/osc/argument/handler/ColorArgumentHandlerTest.java:90-96 | every default colour reparses to an equal colour |
| ColorHandlerTest.TestReparseDefaultColorsAlphaed | modules/core/src/test/java/com/illposed/osc/argument/handler/ColorArgumentHandlerTest.java:103-122 | the copied colours receive the drawn alphas in place, with all other channels kept, and every one of them reparses to an equal colour |
| ColorHandlerTest.AlphaedRoundTrip | modules/core/src/test/java/com/illposed/osc/argument/handler/ColorArgumentHandlerTest.java:112-121 | a colour with any alpha in 0..255 survives the encoding, and an alpha of 128 or more is carried by a negative byte |
| ColorHandlerTest.DefaultColorsRoundTrip | modules/core/src/test/java/com/illposed/osc/argument/handler/ColorArgumentHandlerTest.java:27-40 | every default colour is fully opaque and survives the encoding |

## Left out

- ColorArgumentHandler.java is not part of this model. The conversions and the
  channel order come from the test. `ToSignedByte` is taken to be Java's
  `(byte)` narrowing cast. Only its values on 0..255 are pinned down.
- The generic `ArgumentHandler<T>` interface, the handler's type tag, and the
  other handlers are not modelled. `reparse` is modelled for the colour handler,
  which is the only handler the test uses.
- OSCParseException and OSCSerializeException are only declared in `throws`
  clauses. The errors the model raises are the buffer's overflow and underflow.
- The packet model (OSCPacket.java) is an empty marker interface with no behaviour.
- `java.awt.Color` internals: the packed ARGB int, and the constructor's range
  checks. A colour is four channels typed 0..255, and equality is channel by
  channel. The default colours are AWT's published channel values.
- Logging through slf4j is output only.
- `java.util.Random`: the alpha draws of `nextInt(256)` are a parameter, one
  value in 0..255 per colour, so the alphaed test is proved for every choice.
- `ByteBuffer` features the test does not use are not modelled: mark, byte
  order, absolute gets and puts, read-only views.
