/** The codec itself: encodeMessage and decodeMessage of the application's StegUtil class,
    with its loops, counters and buffers, each proved against the functions
    and predicates of StegFormat. */
module StegUtil {
  import opened Raster
  import opened StegFormat

  function Min(a: int, b: int): int {
    if a <= b then a else b
  }

  /** The encoder's bit counters are in range; once every byte is embedded,
      bitIndex is back at 7. */
  predicate CountersOk(byteIndex: int, bitIndex: int, dataLen: nat) {
    0 <= byteIndex <= dataLen && 0 <= bitIndex < 8 &&
    (byteIndex == dataLen ==> bitIndex == 7)
  }

  /** Frame bits already embedded when the counters stand at
      (byteIndex, bitIndex): bitIndex counts down 7..0 within a byte. */
  function Consumed(byteIndex: nat, bitIndex: int): nat
    requires 0 <= bitIndex < 8
  {
    8 * byteIndex + 7 - bitIndex
  }

  /** The bit `(data[byteIndex] >> bitIndex) & 1` the encoder takes next is
      frame bit number Consumed(byteIndex, bitIndex). */
  lemma NextFrameBit(data: seq<bv8>, byteIndex: nat, bitIndex: int)
    requires byteIndex < |data| && 0 <= bitIndex < 8
    ensures Consumed(byteIndex, bitIndex) < 8 * |data|
    ensures FrameBit(data, Consumed(byteIndex, bitIndex)) == (data[byteIndex] >> bitIndex) & 1
  {
    var k := Consumed(byteIndex, bitIndex);
    assert k / 8 == byteIndex && k % 8 == 7 - bitIndex;
  }

  /** `(v & 0xFE) | bit` differs from v at most in its lowest bit, which is `bit`. */
  lemma SetLsb(v: bv8, bit: bv8)
    requires bit <= 1
    ensures ((v & 0xFE) | bit) >> 1 == v >> 1 && ((v & 0xFE) | bit) & 1 == bit
  {
  }

  /** One step of the encoder's channel loop: while frame bits remain, the
      channel's lowest bit becomes the next one (`(c & 0xFE) | bit`) and the
      counters advance, bitIndex 7..0 and then the next byte. */
  method EmbedInChannel(ch: bv8, data: seq<bv8>, byteIndex0: nat, bitIndex0: int)
    returns (out: bv8, byteIndex: nat, bitIndex: int)
    requires CountersOk(byteIndex0, bitIndex0, |data|)
    ensures CountersOk(byteIndex, bitIndex, |data|)
    ensures Consumed(byteIndex, bitIndex) == Min(Consumed(byteIndex0, bitIndex0) + 1, 8 * |data|)
    ensures out == CarryChannel(ch, Consumed(byteIndex0, bitIndex0), data)
  {
    out, byteIndex, bitIndex := ch, byteIndex0, bitIndex0;
    // once byteIndex reaches the end of the frame the channel stays as it is
    if byteIndex < |data| {
      NextFrameBit(data, byteIndex, bitIndex);
      var bit := (data[byteIndex] >> bitIndex) & 1;
      SetLsb(ch, bit);
      out := (ch & 0xFE) | bit;
      bitIndex := bitIndex - 1;
      if bitIndex < 0 {
        bitIndex := 7;
        byteIndex := byteIndex + 1;
      }
    }
  }

  /** The body of the encoder's pixel loop: the R, G, B channels of `rgb`
      receive the next frame bits while any remain, and the counters move on
      by as many bits as were written. */
  method EmbedInPixel(rgb: bv32, data: seq<bv8>, byteIndex0: nat, bitIndex0: int)
    returns (newRgb: bv32, byteIndex: nat, bitIndex: int)
    requires CountersOk(byteIndex0, bitIndex0, |data|)
    ensures CountersOk(byteIndex, bitIndex, |data|)
    ensures Consumed(byteIndex, bitIndex) == Min(Consumed(byteIndex0, bitIndex0) + 3, 8 * |data|)
    ensures PixelCarries(rgb, newRgb, Consumed(byteIndex0, bitIndex0), data)
  {
    var a := Alpha(rgb);
    var channels := [Channel(rgb, 0), Channel(rgb, 1), Channel(rgb, 2)];
    ghost var orig := channels;
    byteIndex, bitIndex := byteIndex0, bitIndex0;
    ghost var s0 := Consumed(byteIndex0, bitIndex0);
    for i := 0 to 3
      invariant CountersOk(byteIndex, bitIndex, |data|)
      invariant Consumed(byteIndex, bitIndex) == Min(s0 + i, 8 * |data|)
      invariant |channels| == 3
      invariant forall c :: 0 <= c < i ==> channels[c] == CarryChannel(orig[c], s0 + c, data)
      invariant forall c :: i <= c < 3 ==> channels[c] == orig[c]
    {
      var ch;
      ch, byteIndex, bitIndex := EmbedInChannel(channels[i], data, byteIndex, bitIndex);
      channels := channels[i := ch];
    }
    PixelOfCarriedChannels(rgb, channels[0], channels[1], channels[2], s0, data);
    newRgb := Argb(a, channels[0], channels[1], channels[2]);
  }

  lemma PixelOfCarriedChannels(rgb: bv32, c0: bv8, c1: bv8, c2: bv8, s0: nat, data: seq<bv8>)
    requires c0 == CarryChannel(Channel(rgb, 0), s0, data)
    requires c1 == CarryChannel(Channel(rgb, 1), s0 + 1, data)
    requires c2 == CarryChannel(Channel(rgb, 2), s0 + 2, data)
    ensures PixelCarries(rgb, Argb(Alpha(rgb), c0, c1, c2), s0, data)
  {
    CarryChannelCarries(Channel(rgb, 0), s0, data);
    CarryChannelCarries(Channel(rgb, 1), s0 + 1, data);
    CarryChannelCarries(Channel(rgb, 2), s0 + 2, data);
  }

  /** Hides `msg` in a copy of `src`. Fails, before allocating anything, when
      the frame needs more slots than the image has; otherwise returns a new
      image of the same size whose slot LSBs carry the frame and which agrees
      with `src` everywhere else. `src` is only read. */
  method EncodeMessage(src: Image, msg: seq<bv8>) returns (r: Result<Image>)
    requires src.Valid() && |msg| <= MaxLength
    ensures r.Err? <==> RequiredBits(|msg|) > Capacity(src.width, src.height)
    ensures r.Err? ==> r.error == CapacityExceeded
    ensures r.Ok? ==> fresh(r.value) && fresh(r.value.pixels) && r.value.Valid()
    ensures r.Ok? ==> r.value.width == src.width && r.value.height == src.height
    ensures r.Ok? ==> Embedded(src.pixels[..], r.value.pixels[..], Frame(msg))
  {
    var width, height := src.width, src.height;
    var msgLen := |msg|;
    var capacityBits := width * height * 3;
    var requiredBits := 32 + msgLen * 8;
    if requiredBits > capacityBits {
      return Err(CapacityExceeded);
    }
    var data := Frame(msg);
    var result := new Image(width, height);
    EmbedFrame(src, result, data);
    return Ok(result);
  }

  /** The encoder's pixel loops: visits the pixels of `src` in row-major
      order, writes each into `result` with the next frame bits in its
      R, G, B lowest bits, and once the frame is complete copies the remaining
      pixels unchanged and stops. */
  method EmbedFrame(src: Image, result: Image, data: seq<bv8>)
    requires src.Valid() && result.Valid()
    requires result.width == src.width && result.height == src.height
    requires result.pixels != src.pixels
    requires 8 * |data| <= Capacity(src.width, src.height)
    modifies result.pixels
    ensures Embedded(src.pixels[..], result.pixels[..], data)
  {
    var width, height := src.width, src.height;
    ghost var srcPixels := src.pixels[..];
    var byteIndex: nat, bitIndex: int := 0, 7;
    ghost var p := 0; // the pixel (x, y) about to be visited, y * width + x
    var y := 0;
    label outer:
    while y < height
      invariant 0 <= y <= height && p == y * width
      invariant CountersOk(byteIndex, bitIndex, |data|)
      invariant Consumed(byteIndex, bitIndex) == 3 * p <= 8 * |data|
      invariant CarriedPrefix(srcPixels, result.pixels[..], data, p)
    {
      var x := 0;
      while x < width
        invariant 0 <= x <= width && p == y * width + x
        invariant CountersOk(byteIndex, bitIndex, |data|)
        invariant Consumed(byteIndex, bitIndex) == 3 * p <= 8 * |data|
        invariant CarriedPrefix(srcPixels, result.pixels[..], data, p)
      {
        RowMajorInBounds(x, y, width, height);
        var rgb := src.GetRGB(x, y);
        ghost var s := Consumed(byteIndex, bitIndex);
        var newRgb;
        newRgb, byteIndex, bitIndex := EmbedInPixel(rgb, data, byteIndex, bitIndex);
        ghost var before := result.pixels[..];
        result.SetRGB(x, y, newRgb);
        assert result.pixels[..] == before[p := newRgb];
        CarriedPrefixExtend(srcPixels, before, data, p, rgb, newRgb, s);
        if byteIndex >= |data| {
          // the frame is complete: the rest of the image is copied as it is
          ghost var done := result.pixels[..];
          CopyRemaining(src, result, x, y);
          CarriedPrefixComplete(srcPixels, done, result.pixels[..], data, p);
          break outer;
        }
        x := x + 1;
        p := p + 1;
      }
      assert p == (y + 1) * width;
      y := y + 1;
    }
    if y == height {
      assert p == |srcPixels| by {
        assert p == height * width;
      }
      CarriedPrefixAll(srcPixels, result.pixels[..], data);
    }
    assert src.pixels[..] == srcPixels;
  }

  /** The first `n` pixels of `out` carry their slots of the frame. */
  ghost predicate CarriedPrefix(src: seq<bv32>, out: seq<bv32>, data: seq<bv8>, n: nat) {
    |out| == |src| && n <= |src| &&
    forall q :: 0 <= q < n ==> CarriedAt(src, out, data, q)
  }

  lemma CarriedPrefixExtend(src: seq<bv32>, out: seq<bv32>, data: seq<bv8>, p: nat, rgb: bv32, px: bv32, s: nat)
    requires CarriedPrefix(src, out, data, p) && p < |src|
    requires rgb == src[p] && s == 3 * p && PixelCarries(rgb, px, s, data)
    ensures CarriedPrefix(src, out[p := px], data, p + 1)
  {
    var out' := out[p := px];
    forall q | 0 <= q < p + 1
      ensures CarriedAt(src, out', data, q)
    {
      if q < p {
        assert CarriedAt(src, out, data, q);
      }
    }
  }

  /** Pixels up to p carry the frame, the frame ends within them, and `fin`
      agrees with `src` after p: `fin` is the finished embedding. */
  lemma CarriedPrefixComplete(src: seq<bv32>, out: seq<bv32>, fin: seq<bv32>, data: seq<bv8>, p: nat)
    requires CarriedPrefix(src, out, data, p + 1) && p < |src|
    requires 8 * |data| <= 3 * (p + 1)
    requires |fin| == |src|
    requires forall q :: 0 <= q < |fin| ==> fin[q] == if q <= p then out[q] else src[q]
    ensures Embedded(src, fin, data)
  {
    forall q | 0 <= q < |src|
      ensures CarriedAt(src, fin, data, q)
    {
      if q <= p {
        assert CarriedAt(src, out, data, q);
      } else {
        UntouchedPixel(src[q], 3 * q, data);
      }
    }
  }

  lemma CarriedPrefixAll(src: seq<bv32>, out: seq<bv32>, data: seq<bv8>)
    requires CarriedPrefix(src, out, data, |src|)
    ensures Embedded(src, out, data)
  {
    forall q | 0 <= q < |src|
      ensures CarriedAt(src, out, data, q)
    {
      assert CarriedAt(src, out, data, q);
    }
  }

  /** A pixel whose slots all lie past the frame carries it unchanged. */
  lemma UntouchedPixel(px: bv32, s: nat, data: seq<bv8>)
    requires s >= 8 * |data|
    ensures PixelCarries(px, px, s, data)
  {
  }

  /** Copies every pixel after (x, y), in row-major order, from `src` into
      `result`, and leaves the pixels up to (x, y) alone. */
  method CopyRemaining(src: Image, result: Image, x: nat, y: nat)
    requires src.Valid() && result.Valid()
    requires result.width == src.width && result.height == src.height
    requires x < src.width && y < src.height
    requires result.pixels != src.pixels
    modifies result.pixels
    ensures forall q :: 0 <= q < result.pixels.Length ==>
      result.pixels[q] == if q <= y * src.width + x then old(result.pixels[q]) else src.pixels[q]
  {
    var width, height := src.width, src.height;
    ghost var p0 := y * width + x;
    ghost var q0 := p0 + 1; // the pixel (xx, yy) about to be copied, yy * width + xx
    var yy := y;
    while yy < height
      invariant y <= yy <= height
      invariant q0 == if yy == y then p0 + 1 else yy * width
      invariant p0 < q0
      invariant forall q :: 0 <= q < result.pixels.Length && p0 < q < q0 ==> result.pixels[q] == src.pixels[q]
      invariant forall q :: 0 <= q < result.pixels.Length && !(p0 < q < q0) ==> result.pixels[q] == old(result.pixels[q])
    {
      var xx := if yy == y then x + 1 else 0;
      while xx < width
        invariant (if yy == y then x + 1 else 0) <= xx <= width
        invariant q0 == yy * width + xx && p0 < q0
        invariant forall q :: 0 <= q < result.pixels.Length && p0 < q < q0 ==> result.pixels[q] == src.pixels[q]
        invariant forall q :: 0 <= q < result.pixels.Length && !(p0 < q < q0) ==> result.pixels[q] == old(result.pixels[q])
      {
        result.SetRGB(xx, yy, src.GetRGB(xx, yy));
        xx := xx + 1;
        q0 := q0 + 1;
      }
      assert q0 == (yy + 1) * width;
      yy := yy + 1;
    }
  }

  /** Everything the first pass has read: `byteIndex` whole length bytes and
      `bitCount` bits of the next one. */
  ghost predicate LengthSoFar(pixels: seq<bv32>, lenBytes: seq<bv8>, byteIndex: nat, bitCount: nat, currentByte: bv8) {
    8 * byteIndex + bitCount <= 3 * |pixels| && bitCount < 8 && byteIndex <= |lenBytes| &&
    currentByte == Packed(pixels, 8 * byteIndex, bitCount) &&
    forall j :: 0 <= j < byteIndex ==> lenBytes[j] == SlotByte(pixels, 8 * j)
  }

  /** Shifting the next slot's bit into the current byte, and storing the
      byte once it has 8 bits, extends what the first pass has read by one
      slot. */
  lemma LengthStep(pixels: seq<bv32>, lenBytes: seq<bv8>, byteIndex: nat, bitCount: nat, currentByte: bv8, bit: bv8)
    requires 8 * byteIndex + bitCount < 3 * |pixels| && bitCount < 8 && byteIndex < |lenBytes|
    requires LengthSoFar(pixels, lenBytes, byteIndex, bitCount, currentByte)
    requires bit == SlotLsb(pixels, 8 * byteIndex + bitCount)
    ensures bitCount + 1 < 8 ==>
      LengthSoFar(pixels, lenBytes, byteIndex, bitCount + 1, (currentByte << 1) | bit)
    ensures bitCount + 1 == 8 ==>
      LengthSoFar(pixels, lenBytes[byteIndex := (currentByte << 1) | bit], byteIndex + 1, 0, 0)
  {
    assert (currentByte << 1) | bit == Packed(pixels, 8 * byteIndex, bitCount + 1);
  }

  /** Slot 3p + c is the lowest bit of entry c of pixel p's R, G, B list:
      SlotOfPixel restated for the `channels` array the decoder's loops index. */
  lemma SlotOfChannels(pixels: seq<bv32>, p: nat, channels: seq<bv8>, c: nat)
    requires p < |pixels| && c < 3
    requires channels == [Channel(pixels[p], 0), Channel(pixels[p], 1), Channel(pixels[p], 2)]
    ensures SlotLsb(pixels, 3 * p + c) == channels[c] & 1
  {
    SlotOfPixel(pixels, p, c);
  }

  /** The decoder's first pass: gathers the lowest bits of the R, G, B
      channels in row-major order into bytes, most significant bit first,
      and stops once four length bytes are complete. `byteIndex` is the
      number of bytes it completed: 4 exactly when the image has 32 slots. */
  method ReadLengthBytes(img: Image) returns (lenBytes: seq<bv8>, byteIndex: nat)
    requires img.Valid()
    ensures |lenBytes| == 4 && byteIndex <= 4
    ensures byteIndex == 4 <==> 32 <= Capacity(img.width, img.height)
    ensures byteIndex == 4 ==> forall k :: 0 <= k < 4 ==> lenBytes[k] == SlotByte(img.pixels[..], 8 * k)
  {
    var width, height := img.width, img.height;
    ghost var pixels := img.pixels[..];
    var buf := new bv8[4];
    byteIndex := 0;
    var bitCountInByte := 0;
    var currentByte: bv8 := 0;
    ghost var p := 0; // the pixel (x, y) about to be visited, y * width + x
    var y := 0;
    label outerLen:
    while y < height
      invariant 0 <= y <= height && p == y * width
      invariant byteIndex < 4 && bitCountInByte < 8
      invariant 8 * byteIndex + bitCountInByte == 3 * p
      invariant LengthSoFar(pixels, buf[..], byteIndex, bitCountInByte, currentByte)
    {
      var x := 0;
      while x < width
        invariant 0 <= x <= width && p == y * width + x
        invariant byteIndex < 4 && bitCountInByte < 8
        invariant 8 * byteIndex + bitCountInByte == 3 * p
        invariant LengthSoFar(pixels, buf[..], byteIndex, bitCountInByte, currentByte)
      {
        RowMajorInBounds(x, y, width, height);
        assert p < |pixels|;
        var rgb := img.GetRGB(x, y);
        byteIndex, bitCountInByte, currentByte := ReadLengthPixel(rgb, buf, byteIndex, bitCountInByte, currentByte, pixels, p);
        if byteIndex == 4 {
          lenBytes := buf[..];
          return;
        }
        x := x + 1;
        p := p + 1;
      }
      assert p == (y + 1) * width;
      y := y + 1;
    }
    assert p == |pixels| by {
      assert p == height * width;
    }
    lenBytes := buf[..];
  }

  /** The first pass's channel loop over one pixel: shifts the lowest bits
      of its R, G, B channels into the current byte, stores each byte that
      reaches 8 bits, and stops as soon as the fourth length byte is stored. */
  method ReadLengthPixel(rgb: bv32, lenBytes: array<bv8>, byteIndex0: nat, bitCount0: nat, currentByte0: bv8,
                         ghost pixels: seq<bv32>, ghost p: nat)
    returns (byteIndex: nat, bitCount: nat, currentByte: bv8)
    requires lenBytes.Length == 4 && p < |pixels| && rgb == pixels[p]
    requires byteIndex0 < 4 && bitCount0 < 8 && 8 * byteIndex0 + bitCount0 == 3 * p
    requires LengthSoFar(pixels, lenBytes[..], byteIndex0, bitCount0, currentByte0)
    modifies lenBytes
    ensures byteIndex <= 4 && bitCount < 8
    ensures byteIndex == 4 ==> 32 <= 3 * |pixels| && LengthSoFar(pixels, lenBytes[..], 4, 0, 0)
    ensures byteIndex < 4 ==> 8 * byteIndex + bitCount == 3 * p + 3 &&
                              LengthSoFar(pixels, lenBytes[..], byteIndex, bitCount, currentByte)
  {
    byteIndex, bitCount, currentByte := byteIndex0, bitCount0, currentByte0;
    var channels := [Channel(rgb, 0), Channel(rgb, 1), Channel(rgb, 2)];
    for i := 0 to 3
      invariant byteIndex < 4 && bitCount < 8
      invariant 8 * byteIndex + bitCount == 3 * p + i
      invariant LengthSoFar(pixels, lenBytes[..], byteIndex, bitCount, currentByte)
    {
      SlotOfChannels(pixels, p, channels, i);
      var bit := channels[i] & 1;
      LengthStep(pixels, lenBytes[..], byteIndex, bitCount, currentByte, bit);
      currentByte := (currentByte << 1) | bit;
      bitCount := bitCount + 1;
      if bitCount == 8 {
        ghost var before := lenBytes[..];
        lenBytes[byteIndex] := currentByte;
        assert lenBytes[..] == before[byteIndex := currentByte];
        byteIndex := byteIndex + 1;
        bitCount := 0;
        currentByte := 0;
        if byteIndex == 4 {
          return;
        }
      }
    }
  }

  /** Recovers the hidden message of `img`: reads the 32-bit length from the
      first 32 slots, rejects a missing, non-positive or oversized length, and
      otherwise gathers the payload bytes from the following slots. */
  method DecodeMessage(img: Image) returns (r: Result<seq<bv8>>)
    requires img.Valid()
    ensures r == Decode(img.width, img.height, img.pixels[..])
  {
    var width, height := img.width, img.height;
    var capacityBits := width * height * 3;
    var lenBytes, byteIndex := ReadLengthBytes(img);
    if byteIndex < 4 {
      return Err(TruncatedLength);
    }
    var msgLen := ToInt32(Unsigned32(lenBytes[0], lenBytes[1], lenBytes[2], lenBytes[3]));
    assert msgLen == LengthField(img.pixels[..]);
    if msgLen <= 0 {
      return Err(InvalidLength(msgLen));
    }
    var requiredBits := 32 + msgLen * 8;
    if requiredBits > capacityBits {
      return Err(LengthExceedsCapacity);
    }
    var msgBytes := ReadPayload(img, msgLen);
    return Ok(msgBytes);
  }

  /** The decoder's second pass: walks all slots again, skips the 32 length
      bits and or-s each of the next 8 * msgLen bits into its place in the
      message buffer, bit 7 first, returning once they are all in. */
  method ReadPayload(img: Image, msgLen: nat) returns (msg: seq<bv8>)
    requires img.Valid() && RequiredBits(msgLen) <= Capacity(img.width, img.height)
    ensures msg == PayloadBytes(img.pixels[..], msgLen)
  {
    var width, height := img.width, img.height;
    ghost var pixels := img.pixels[..];
    var msgBytes := new bv8[msgLen](_ => 0);
    var totalBitsRead := 0;
    ghost var p := 0; // the pixel (x, y) about to be visited, y * width + x
    var y := 0;
    while y < height
      invariant 0 <= y <= height && p == y * width
      invariant totalBitsRead == 3 * p <= 32 + 8 * msgLen
      invariant PayloadSoFar(pixels, msgBytes[..], PayloadBitsRead(totalBitsRead))
    {
      var x := 0;
      while x < width
        invariant 0 <= x <= width && p == y * width + x
        invariant totalBitsRead == 3 * p <= 32 + 8 * msgLen
        invariant PayloadSoFar(pixels, msgBytes[..], PayloadBitsRead(totalBitsRead))
      {
        RowMajorInBounds(x, y, width, height);
        assert p < |pixels|;
        var rgb := img.GetRGB(x, y);
        var done;
        totalBitsRead, done := ReadPayloadPixel(rgb, msgBytes, totalBitsRead, pixels, p);
        if done {
          PayloadComplete(pixels, msgBytes[..]);
          return msgBytes[..];
        }
        x := x + 1;
        p := p + 1;
      }
      assert p == (y + 1) * width;
      y := y + 1;
    }
    assert totalBitsRead == 3 * |pixels| by {
      assert p == height * width;
    }
    PayloadComplete(pixels, msgBytes[..]);
    return msgBytes[..];
  }

  /** The second pass's channel loop over one pixel: visits its R, G, B
      channels as slots 3p, 3p + 1, 3p + 2 and reports `done` as soon as a
      slot lies past the message. */
  method ReadPayloadPixel(rgb: bv32, msgBytes: array<bv8>, totalBitsRead0: nat, ghost pixels: seq<bv32>, ghost p: nat)
    returns (totalBitsRead: nat, done: bool)
    requires p < |pixels| && rgb == pixels[p]
    requires totalBitsRead0 == 3 * p <= 32 + 8 * msgBytes.Length
    requires PayloadSoFar(pixels, msgBytes[..], PayloadBitsRead(totalBitsRead0))
    modifies msgBytes
    ensures done ==> PayloadSoFar(pixels, msgBytes[..], 8 * msgBytes.Length)
    ensures !done ==> totalBitsRead == 3 * p + 3 <= 32 + 8 * msgBytes.Length &&
                      PayloadSoFar(pixels, msgBytes[..], PayloadBitsRead(totalBitsRead))
  {
    totalBitsRead := totalBitsRead0;
    var channels := [Channel(rgb, 0), Channel(rgb, 1), Channel(rgb, 2)];
    for i := 0 to 3
      invariant totalBitsRead == 3 * p + i <= 32 + 8 * msgBytes.Length
      invariant PayloadSoFar(pixels, msgBytes[..], PayloadBitsRead(totalBitsRead))
    {
      SlotOfChannels(pixels, p, channels, i);
      done := ReadPayloadChannel(channels[i], msgBytes, totalBitsRead, pixels);
      if done {
        return;
      }
      totalBitsRead := totalBitsRead + 1;
    }
    done := false;
  }

  /** The body of the second pass's channel loop for slot `totalBitsRead`:
      a length slot is skipped, a payload slot has its bit or-ed into its
      place (`msgBytes[pos] |= bit << (7 - idx % 8)`), and a slot past the
      message means the message is complete. */
  method ReadPayloadChannel(ch: bv8, msgBytes: array<bv8>, totalBitsRead: nat, ghost pixels: seq<bv32>)
    returns (done: bool)
    requires totalBitsRead < 3 * |pixels| && ch & 1 == SlotLsb(pixels, totalBitsRead)
    requires totalBitsRead <= 32 + 8 * msgBytes.Length
    requires PayloadSoFar(pixels, msgBytes[..], PayloadBitsRead(totalBitsRead))
    modifies msgBytes
    ensures done <==> totalBitsRead == 32 + 8 * msgBytes.Length
    ensures done ==> PayloadSoFar(pixels, msgBytes[..], 8 * msgBytes.Length)
    ensures !done ==> PayloadSoFar(pixels, msgBytes[..], PayloadBitsRead(totalBitsRead + 1))
  {
    var msgLen := msgBytes.Length;
    var bit := ch & 1;
    if totalBitsRead >= 32 {
      var msgBitIndex := totalBitsRead - 32;
      if msgBitIndex < msgLen * 8 {
        var bytePos := msgBitIndex / 8;
        var bitPosInByte := 7 - msgBitIndex % 8;
        ghost var before := msgBytes[..];
        PayloadStep(pixels, before, msgBitIndex, bit, bytePos, bitPosInByte);
        msgBytes[bytePos] := msgBytes[bytePos] | (bit << bitPosInByte);
        assert msgBytes[..] == before[bytePos := before[bytePos] | (bit << bitPosInByte)];
        assert PayloadBitsRead(totalBitsRead + 1) == msgBitIndex + 1;
        return false;
      } else {
        // the whole message has been read
        return true;
      }
    }
    return false;
  }

  /** Payload bits among the first `t` slots. */
  function PayloadBitsRead(t: nat): nat {
    if t < 32 then 0 else t - 32
  }

  /** Payload byte j once the first `d` payload bits have been or-ed in:
      complete before byte d / 8, its top d % 8 bits at byte d / 8, zero
      after. */
  ghost function PartialByte(pixels: seq<bv32>, j: nat, d: nat): bv8
    requires 32 + 8 * (j + 1) <= 3 * |pixels|
  {
    if j < d / 8 then SlotByte(pixels, 32 + 8 * j)
    else if j == d / 8 then Placed(pixels, 32 + 8 * j, d % 8)
    else 0
  }

  /** Byte j of the payload buffer holds what the first `d` payload bits put there. */
  ghost predicate ByteSoFar(pixels: seq<bv32>, bytes: seq<bv8>, j: nat, d: nat) {
    j < |bytes| && 32 + 8 * (j + 1) <= 3 * |pixels| && bytes[j] == PartialByte(pixels, j, d)
  }

  /** The payload buffer after its first `d` bits have been or-ed in. */
  ghost predicate PayloadSoFar(pixels: seq<bv32>, bytes: seq<bv8>, d: nat) {
    d <= 8 * |bytes| && 32 + 8 * |bytes| <= 3 * |pixels| &&
    forall j :: 0 <= j < |bytes| ==> ByteSoFar(pixels, bytes, j, d)
  }

  /** Payload bit d changes no byte but byte d / 8. */
  lemma PartialByteOther(pixels: seq<bv32>, j: nat, d: nat)
    requires 32 + 8 * (j + 1) <= 3 * |pixels| && j != d / 8
    ensures PartialByte(pixels, j, d + 1) == PartialByte(pixels, j, d)
  {
    if j > d / 8 && j == (d + 1) / 8 {
      assert d % 8 == 7 && (d + 1) % 8 == 0;
    }
  }

  /** Payload bit d lands at bit 7 - d % 8 of byte d / 8. */
  lemma PartialByteCurrent(pixels: seq<bv32>, d: nat)
    requires 32 + 8 * (d / 8 + 1) <= 3 * |pixels|
    ensures 32 + d < 3 * |pixels|
    ensures PartialByte(pixels, d / 8, d + 1) ==
            PartialByte(pixels, d / 8, d) | (SlotLsb(pixels, 32 + d) << (7 - d % 8))
  {
    var j0, n := d / 8, d % 8;
    var s := 32 + 8 * j0;
    assert s + n == 32 + d;
    if n == 7 {
      assert (d + 1) / 8 == j0 + 1;
      PlacedIsSlotByte(pixels, s);
    } else {
      assert (d + 1) / 8 == j0 && (d + 1) % 8 == n + 1;
    }
  }

  /** Or-ing payload bit d into its place extends the buffer by one bit. */
  lemma PayloadStep(pixels: seq<bv32>, bytes: seq<bv8>, d: nat, bit: bv8, bytePos: nat, bitPos: nat)
    requires PayloadSoFar(pixels, bytes, d) && d < 8 * |bytes|
    requires 32 + d < 3 * |pixels| && bit == SlotLsb(pixels, 32 + d)
    requires bytePos == d / 8 && bitPos == 7 - d % 8
    ensures bytePos < |bytes|
    ensures PayloadSoFar(pixels, bytes[bytePos := bytes[bytePos] | (bit << bitPos)], d + 1)
  {
    assert ByteSoFar(pixels, bytes, bytePos, d);
    ByteStepCurrent(pixels, bytes, d, bit, bytePos, bitPos);
    var bytes' := bytes[bytePos := bytes[bytePos] | (bit << bitPos)];
    var d' := d + 1;
    forall j | 0 <= j < |bytes'|
      ensures ByteSoFar(pixels, bytes', j, d')
    {
      if j != bytePos {
        assert ByteSoFar(pixels, bytes, j, d);
        ByteStepOther(pixels, bytes, bytes', j, d);
      }
    }
  }

  /** Or-ing payload bit d into byte d / 8 keeps that byte in step. */
  lemma ByteStepCurrent(pixels: seq<bv32>, bytes: seq<bv8>, d: nat, bit: bv8, bytePos: nat, bitPos: nat)
    requires ByteSoFar(pixels, bytes, bytePos, d)
    requires 32 + d < 3 * |pixels| && bit == SlotLsb(pixels, 32 + d)
    requires bytePos == d / 8 && bitPos == 7 - d % 8
    ensures ByteSoFar(pixels, bytes[bytePos := bytes[bytePos] | (bit << bitPos)], bytePos, d + 1)
  {
    PartialByteCurrent(pixels, d);
  }

  /** Payload bit d leaves every other byte in step. */
  lemma ByteStepOther(pixels: seq<bv32>, bytes: seq<bv8>, bytes': seq<bv8>, j: nat, d: nat)
    requires ByteSoFar(pixels, bytes, j, d) && j != d / 8
    requires |bytes'| == |bytes| && bytes'[j] == bytes[j]
    ensures ByteSoFar(pixels, bytes', j, d + 1)
  {
    PartialByteOther(pixels, j, d);
  }

  /** Once all 8 * |bytes| payload bits are in, the buffer is the payload. */
  lemma PayloadComplete(pixels: seq<bv32>, bytes: seq<bv8>)
    requires PayloadSoFar(pixels, bytes, 8 * |bytes|)
    ensures bytes == PayloadBytes(pixels, |bytes|)
  {
    forall j | 0 <= j < |bytes|
      ensures bytes[j] == SlotByte(pixels, 32 + 8 * j)
    {
      assert ByteSoFar(pixels, bytes, j, 8 * |bytes|);
    }
  }
}
