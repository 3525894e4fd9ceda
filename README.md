# LSB steganography codec (StegUtil) in Dafny

The application hides a text message in a picture. `StegUtil.encodeMessage`
builds a frame from the message's bytes: a 4-byte big-endian length, then the
bytes themselves. It writes the frame, most significant bit of each byte
first, into the lowest bit of the red, green and blue channels of the image.
Pixels are visited row by row, top to bottom and left to right, and each
pixel's channels in the order R, G, B. Each such channel is one *slot*, so a
width x height image has `3 * width * height` slots. The alpha channel and the
upper seven bits of every colour channel are copied over unchanged. So is
every slot after the frame. `StegUtil.decodeMessage` reads the same slots
back:

- It reads the 32-bit length and interprets it as a signed Java `int`.
- It rejects an image that is too small to hold a length.
- It rejects a length that is zero or negative.
- It rejects a length that the image cannot hold.
- Otherwise it gathers the message bytes from the slots after the length.

The model has four modules:

- `Raster` (raster.dfy): the ARGB pixel buffer. It is a class `Image` with its
  width, height and a row-major `array<bv32>` of ARGB words, plus `getRGB`
  and `setRGB`. It also defines the channel layout of an ARGB word.
- `StegFormat` (steg_format.dfy): the format as functions and predicates:
  - the slot numbering (`SlotOf`, `Locate`);
  - the frame (`Frame`, `FrameBit`);
  - what an embedded image is (`Embedded`: every pixel carries its three
    slots' frame bits, and alpha and the upper bits are kept);
  - what decoding yields (`Decode`).
- `StegUtil` (steg_util.dfy): the two Java methods as imperative Dafny. It
  keeps the same nested loops, counters (`byteIndex`, `bitIndex`,
  `bitCountInByte`, `currentByte`, `totalBitsRead`), buffers (`lenBytes`,
  `msgBytes`), early exits and error checks. Each method is proved against
  `StegFormat`:
  - `EncodeMessage` returns a fresh image that is `Embedded` for the frame
    of the message.
  - `DecodeMessage` returns exactly `Decode` of the image.
- `StegProofs` (steg_proofs.dfy): what the format guarantees:
  - the slot-by-slot content of an embedded image;
  - that there is only one embedded image for a given source and frame;
  - the exact header bytes;
  - the round trip, decode(encode(img, m)) == m for every non-empty message
    that fits, both for the format functions (`RoundTrip`) and for the two
    methods chained (`EncodeThenDecode`);
  - the inputs the decoder rejects.

The exceptions the Java code throws become values: `Result.Err` with an `Error`.
There is one `Error` case per distinct `IllegalArgumentException` message:
`CapacityExceeded`, `TruncatedLength`, `InvalidLength(n)` and
`LengthExceedsCapacity`. Messages are byte sequences (`seq<bv8>`).

Length 0 is the decoder's invalid-length sentinel
(main/SteganographyApp.java:355), yet `encodeMessage` accepts an empty message
and writes length 0, so `decodeMessage` rejects what the encoder produced for
it. The model follows the code:

- `EncodeMessage` accepts `|msg| == 0`.
- `EmptyMessageRejected` proves that such an image decodes to
  `InvalidLength(0)`.
- The round trip is stated for non-empty messages.

The application's dialog refuses an empty text before it calls the encoder
(main/SteganographyApp.java:127-130).

## Model

| member | source | states |
|---|---|---|
| `Raster.Argb` | main/SteganographyApp.java:285 | the word built from a, r, g, b by shifting them to bits 24, 16, 8 and 0 and or-ing them has alpha a and red, green, blue r, g, b |
| `Raster.ArgbOfChannels` | main/SteganographyApp.java:261-285 | unpacking a word into its four channels and repacking them gives the same word |
| `Raster.ChannelsDetermineWord` | main/SteganographyApp.java:261-285 | two words with the same alpha, red, green and blue are equal |
| `Raster.AlphaBits` | main/SteganographyApp.java:261 | `Alpha(rgb)`, the decoded `(rgb >> 24) & 0xFF`, is the word's byte at bits 24..31: shifted back to bit 24 it is the word with all other bits cleared |
| `Raster.ChannelBits` | main/SteganographyApp.java:262-264 | `Channel(rgb, 0)`, `Channel(rgb, 1)` and `Channel(rgb, 2)`, the red, green and blue values that the encoder (lines 262-264) and both decoder passes (lines 321-323 and 371-373) extract, are the word's bytes at bits 16..23, 8..15 and 0..7 |
| `Raster.Image.constructor` | main/SteganographyApp.java:251 | a new width x height raster is fresh and has every word 0 |
| `Raster.Image.GetRGB` | main/SteganographyApp.java:259 | the word of pixel (x, y) is entry y * width + x of the row-major buffer, which is in bounds |
| `Raster.Image.SetRGB` | main/SteganographyApp.java:286 | pixel (x, y) is overwritten and every other word is unchanged |
| `StegFormat.Locate` | main/SteganographyApp.java:257-269 | every slot below the capacity is channel c < 3 of a pixel (x, y) inside the image, with slot number 3 * (y * width + x) + c |
| `StegFormat.SlotOrder` | main/SteganographyApp.java:257-269 | slot numbers strictly increase in visiting order (rows, then pixels in a row, then R, G, B), so distinct channels never share a slot |
| `StegFormat.SlotAtLocation` | main/SteganographyApp.java:319-328 | `SlotLsb` of slot s, a bit 0 or 1, is `channels[i] & 1` for the pixel (x, y) and channel i that `Locate` gives, read through `getRGB(x, y)`; the decoder's second pass reads its bits the same way (lines 369-378) |
| `StegFormat.ToInt32` | main/SteganographyApp.java:350-355 | the 32 length bits read as a Java int lie in [-2^31, 2^31), are negative exactly when the top bit is set, and agree with the unsigned value modulo 2^32 |
| `StegFormat.Unsigned32TopBit` | main/SteganographyApp.java:350-353 | the assembled unsigned length has its top bit set exactly when the first length byte has |
| `StegFormat.BigEndianDigits` | main/SteganographyApp.java:245-248 | the four header bytes `BigEndian(n)` are, in order, n shifted right by 24, 16, 8 and 0 bits and masked to 8 bits: the base-256 digits of n, most significant first |
| `StegFormat.Unsigned32Digits` | main/SteganographyApp.java:350-353 | the unsigned value `Unsigned32(b0, b1, b2, b3)` that or-ing the bytes shifted left by 24, 16, 8 and 0 gives has b0, b1, b2, b3 as its base-256 digits, most significant first |
| `StegFormat.ByteOfValue` | main/SteganographyApp.java:245-248 | the byte built for a digit 0 <= x < 256 has unsigned value x |
| `StegFormat.Unsigned32OfBigEndian` | main/SteganographyApp.java:245-248 | the four big-endian length bytes written by the encoder, reassembled as the decoder does, give back the length |
| `StegFormat.Frame` | main/SteganographyApp.java:243-249 | the frame is 4 + len bytes, the message follows the header unchanged, and the header reads back as the message length |
| `StegFormat.CarryChannelCarries` | main/SteganographyApp.java:270-275 | while frame bits remain, clearing bit 0 of c and or-ing in the frame bit keeps the upper 7 bits of c and has the frame bit as its lowest bit; past the frame the channel is unchanged |
| `StegFormat.Decode` | main/SteganographyApp.java:306-398 | decoding fails with a truncated length exactly when the image has fewer than 32 slots, and any message it returns is non-empty, within the array bound, and fits the image |
| `StegFormat.SlotByteUnfold` | main/SteganographyApp.java:327-333 | shifting 8 consecutive slot bits into a byte one by one gives the byte whose bits, from the top, are those slots |
| `StegFormat.SlotByteIff` | main/SteganographyApp.java:327-333 | the byte gathered from 8 slots is b exactly when those slots hold the bits of b, most significant first |
| `StegFormat.PlacedIsSlotByte` | main/SteganographyApp.java:383-385 | or-ing 8 slot bits into positions 7 down to 0 of a zeroed byte gives the same byte as shifting them in |
| `StegUtil.NextFrameBit` | main/SteganographyApp.java:274 | `(data[byteIndex] >> bitIndex) & 1` is frame bit number 8 * byteIndex + 7 - bitIndex, taken most significant bit first |
| `StegUtil.SetLsb` | main/SteganographyApp.java:275 | clearing bit 0 of c with `& 0xFE` and or-ing in `bit` changes only bit 0 of c, which becomes `bit` |
| `StegUtil.EmbedInChannel` | main/SteganographyApp.java:270-282 | one channel step: while frame bits remain the channel receives the next one and the counters advance by one bit (bitIndex 7..0, then the next byte); after the frame the channel and counters are left alone |
| `StegUtil.EmbedInPixel` | main/SteganographyApp.java:259-285 | one pixel: its R, G, B channels carry the next three frame slots (or stay as they are past the frame), its alpha is kept, and the counters advance by the number of bits written |
| `StegUtil.EncodeMessage` | main/SteganographyApp.java:229-301 | fails with `CapacityExceeded` exactly when 32 + 8 * len exceeds 3 * width * height (an exact fit is accepted); otherwise returns a fresh image of the same size that is `Embedded` for the frame of the message; the source image is only read |
| `StegUtil.EmbedFrame` | main/SteganographyApp.java:256-298 | the pixel loops with their labelled break leave the result buffer `Embedded` over the source for the frame |
| `StegUtil.CopyRemaining` | main/SteganographyApp.java:288-294 | every pixel after (x, y) in row-major order is copied from the source, and the pixels up to (x, y) are left as they were |
| `StegUtil.LengthStep` | main/SteganographyApp.java:327-336 | shifting the next slot bit into `currentByte`, and storing and resetting it once 8 bits are in, keeps the bytes read so far equal to the slot bytes |
| `StegUtil.SlotOfChannels` | main/SteganographyApp.java:320-328 | `channels[i] & 1` of pixel p is the bit of slot 3p + i |
| `StegFormat.SlotOfPixel` | main/SteganographyApp.java:320-328 | the bit of slot 3p + c is the lowest bit of channel c of pixel p, the `channels[i] & 1` both decoder passes read |
| `StegUtil.ReadLengthBytes` | main/SteganographyApp.java:311-344 | the first pass completes 4 length bytes exactly when the image has at least 32 slots, and those bytes are the slot bytes 0, 8, 16, 24 |
| `StegUtil.ReadLengthPixel` | main/SteganographyApp.java:320-342 | one pixel of the first pass reads its three slots into the length bytes, and stops as soon as the fourth length byte is complete |
| `StegUtil.DecodeMessage` | main/SteganographyApp.java:306-399 | the decoder's result, error or message, is exactly `Decode` of the image |
| `StegUtil.ReadPayload` | main/SteganographyApp.java:364-398 | the second pass returns the msgLen bytes held by slots 32 .. 32 + 8 * msgLen - 1, whether it stops early or runs off the end of the image |
| `StegUtil.ReadPayloadPixel` | main/SteganographyApp.java:370-393 | one pixel of the second pass reads its three slots into the message buffer, and reports completion as soon as a slot lies past the message |
| `StegUtil.ReadPayloadChannel` | main/SteganographyApp.java:378-392 | a slot is complete exactly at slot 32 + 8 * msgLen; a length slot is skipped, and a payload slot's bit is or-ed in at position `7 - idx % 8` of byte `idx / 8` |
| `StegUtil.PayloadStep` | main/SteganographyApp.java:381-385 | or-ing payload bit idx into byte idx / 8 at position 7 - idx % 8 advances the partly filled buffer by exactly that bit, and the byte index is in bounds |
| `StegUtil.PayloadComplete` | main/SteganographyApp.java:386-398 | once all 8 * msgLen payload bits are in, the buffer is exactly the payload bytes |
| `StegProofs.EmbeddedSlot` | main/SteganographyApp.java:269-283 | in an embedded image slot k carries frame bit k while frame bits remain and the source's bit after that, and the upper 7 bits of its channel are the source's |
| `StegProofs.EmbeddedAlpha` | main/SteganographyApp.java:261-285 | every output pixel keeps the source pixel's alpha |
| `StegProofs.EmbeddedTail` | main/SteganographyApp.java:288-294 | every pixel whose slots all lie past the frame is the source pixel |
| `StegProofs.EmbeddedUnique` | main/SteganographyApp.java:256-298 | for a given source and frame there is only one embedded image, so the encoder's output is determined |
| `StegProofs.EmbeddedSlotByte` | main/SteganographyApp.java:269-283 | the 8 slots of frame byte j of an embedded image, read back most significant bit first, give byte j |
| `StegProofs.FrameBitOfByte` | main/SteganographyApp.java:274-281 | frame bit 8j + i is bit 7 - i of byte j |
| `StegProofs.FrameHeader` | main/SteganographyApp.java:244-249 | the header bytes are `(len >> 24) & 0xFF`, `(len >> 16) & 0xFF`, `(len >> 8) & 0xFF`, `len & 0xFF`, and byte 4 + j of the frame is message byte j |
| `StegProofs.RoundTrip` | main/SteganographyApp.java:229-399 | decoding an image that is `Embedded` for the frame of a non-empty message that fits yields exactly that message |
| `StegProofs.EncodeThenDecode` | main/SteganographyApp.java:229-399 | running `EncodeMessage` and then `DecodeMessage` on any valid image returns the message, for every non-empty message that fits |
| `StegProofs.EmptyMessageRejected` | main/SteganographyApp.java:355-357 | an encoded empty message decodes to `InvalidLength(0)` |
| `StegProofs.TopBitRejected` | main/SteganographyApp.java:350-357 | when slot 0 is 1 the length reads as a negative int and decoding fails with `InvalidLength` of that negative value |
| `StegProofs.ZeroLsbRejected` | main/SteganographyApp.java:355-357 | an image whose 32 length slots all have LSB 0, whatever its alpha and upper channel bits, decodes to `InvalidLength(0)` |
| `StegProofs.BlankImageRejected` | main/SteganographyApp.java:355-357 | an all-zero image (a fresh raster) that holds a length decodes to `InvalidLength(0)`, as a case of `ZeroLsbRejected` |
| `StegProofs.SmallImageRejected` | main/SteganographyApp.java:346-348 | an image of fewer than 11 pixels fails with `TruncatedLength` |

## Left out

- The Swing user interface (main/SteganographyApp.java:11-209): the window, panels, file choosers, dialogs and event handlers. It is UI state and is not part of this model.
- Image file I/O through `ImageIO.read`/`ImageIO.write` and the choice of output format. File I/O is outside the model; the codec takes and returns in-memory images.
- UTF-8 conversion (`getBytes(UTF_8)`, `new String(..., UTF_8)`): messages are byte sequences. `DecodeMessage` returns the bytes the Java method would hand to the `String` constructor.
- `BufferedImage` colour-model conversion inside `getRGB`/`setRGB` and the `TYPE_INT_ARGB` pixel format. The raster stores and returns ARGB words as given.
- `main` and `SwingUtilities.invokeLater`: process start-up and the event thread.
- The exception texts. Each distinct exception is one `Error` case.
- `StegUtil.EncodeMessage`: requires `|msg| <= 0x7FFF_FFFF`, the largest Java array, which no Java caller can exceed. Java computes the capacity and required bits in `long`, where they cannot overflow, and the model uses unbounded integers for them. The array size `4 + msgLen` (main/SteganographyApp.java:244) is `int` arithmetic: for `msgLen >= 2^31 - 4` it wraps negative and Java throws `NegativeArraySizeException`, while the model returns `Ok` whenever the capacity check passes. The model leaves this overflow out: such a message passes the capacity check only for an image of at least about 5.73 * 10^9 pixels, and the `TYPE_INT_ARGB` result for that image (main/SteganographyApp.java:251) needs more than the largest Java array, so Java cannot allocate it either.
- The `int[] channels` local of each pixel is a three-element sequence. In the encoder it is a `seq` variable that is updated element by element.
- Each loop body is a method of its own:
  - the encoder's pixel loops are `EmbedFrame`, its pixel body `EmbedInPixel`, its channel body `EmbedInChannel` and its copy loop `CopyRemaining`;
  - the decoder's passes are `ReadLengthBytes` and `ReadPayload`, with `ReadLengthPixel`, `ReadPayloadPixel` and `ReadPayloadChannel` for the inner loops.

  The labelled `break outer` / `break outerLen` become a `break` or a `return`. The `return` from inside the second pass's channel loop becomes a `done` result that the calling loops pass on.
