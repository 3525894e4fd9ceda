/** What the format promises: what an embedded image holds slot by slot, that
    decoding an embedded frame gives the message back, and which images the
    decoder turns away. */
module StegProofs {
  import opened Raster
  import opened StegFormat
  import StegUtil

  // ------------------------------------------------------- embedded images

  /** Slot s of an embedded image carries frame bit s while frame bits
      remain, and the source's bit after that; the upper seven bits of its
      channel are the source's. */
  lemma EmbeddedSlot(src: seq<bv32>, out: seq<bv32>, data: seq<bv8>, s: nat)
    requires Embedded(src, out, data) && s < 3 * |src|
    ensures SlotLsb(out, s) == if s < 8 * |data| then FrameBit(data, s) else SlotLsb(src, s)
    ensures Channel(out[s / 3], s % 3) >> 1 == Channel(src[s / 3], s % 3) >> 1
  {
    var p, c := s / 3, s % 3;
    var a, b := src[p], out[p];
    assert CarriedAt(src, out, data, p);
    PixelChannel(a, b, 3 * p, c, data);
  }

  lemma PixelChannel(a: bv32, b: bv32, s: nat, c: nat, data: seq<bv8>)
    requires PixelCarries(a, b, s, data) && c < 3
    ensures ChannelCarries(Channel(a, c), Channel(b, c), s + c, data)
  {
  }

  /** Embedding keeps every pixel's alpha. */
  lemma EmbeddedAlpha(src: seq<bv32>, out: seq<bv32>, data: seq<bv8>, p: nat)
    requires Embedded(src, out, data) && p < |src|
    ensures Alpha(out[p]) == Alpha(src[p])
  {
    assert CarriedAt(src, out, data, p);
  }

  /** A pixel whose slots all lie past the frame is copied unchanged. */
  lemma EmbeddedTail(src: seq<bv32>, out: seq<bv32>, data: seq<bv8>, p: nat)
    requires Embedded(src, out, data) && p < |src| && 8 * |data| <= 3 * p
    ensures out[p] == src[p]
  {
    var a, b := src[p], out[p];
    assert CarriedAt(src, out, data, p);
    PixelKept(a, b, 3 * p, data);
  }

  lemma PixelKept(a: bv32, b: bv32, s: nat, data: seq<bv8>)
    requires PixelCarries(a, b, s, data) && 8 * |data| <= s
    ensures b == a
  {
    ChannelKept(Channel(a, 0), Channel(b, 0), s, data);
    ChannelKept(Channel(a, 1), Channel(b, 1), s + 1, data);
    ChannelKept(Channel(a, 2), Channel(b, 2), s + 2, data);
    ChannelsDetermineWord(a, b);
  }

  lemma ChannelKept(a: bv8, b: bv8, s: nat, data: seq<bv8>)
    requires ChannelCarries(a, b, s, data) && 8 * |data| <= s
    ensures b == a
  {
  }

  /** For a given source and frame there is exactly one embedded image. */
  lemma {:induction false} EmbeddedUnique(src: seq<bv32>, out1: seq<bv32>, out2: seq<bv32>, data: seq<bv8>)
    requires Embedded(src, out1, data) && Embedded(src, out2, data)
    ensures out1 == out2
  {
    forall p | 0 <= p < |src|
      ensures out1[p] == out2[p]
    {
      var a, b1, b2 := src[p], out1[p], out2[p];
      assert CarriedAt(src, out1, data, p);
      assert CarriedAt(src, out2, data, p);
      PixelUnique(a, b1, b2, 3 * p, data);
    }
  }

  lemma PixelUnique(a: bv32, b1: bv32, b2: bv32, s: nat, data: seq<bv8>)
    requires PixelCarries(a, b1, s, data) && PixelCarries(a, b2, s, data)
    ensures b1 == b2
  {
    ChannelUnique(Channel(a, 0), Channel(b1, 0), Channel(b2, 0), s, data);
    ChannelUnique(Channel(a, 1), Channel(b1, 1), Channel(b2, 1), s + 1, data);
    ChannelUnique(Channel(a, 2), Channel(b1, 2), Channel(b2, 2), s + 2, data);
    ChannelsDetermineWord(b1, b2);
  }

  lemma ChannelUnique(a: bv8, b1: bv8, b2: bv8, s: nat, data: seq<bv8>)
    requires ChannelCarries(a, b1, s, data) && ChannelCarries(a, b2, s, data)
    ensures b1 == b2
  {
  }

  /** The 8 slots of frame byte j, read back MSB-first, give that byte. */
  lemma EmbeddedSlotByte(src: seq<bv32>, out: seq<bv32>, data: seq<bv8>, j: nat)
    requires Embedded(src, out, data) && j < |data| && 8 * j + 8 <= 3 * |src|
    ensures SlotByte(out, 8 * j) == data[j]
  {
    forall i | 0 <= i < 8
      ensures SlotLsb(out, 8 * j + i) == MsbBit(data[j], i)
    {
      EmbeddedSlot(src, out, data, 8 * j + i);
      FrameBitOfByte(data, j, i);
    }
    SlotByteIff(out, 8 * j, data[j]);
  }

  /** Frame bit 8j + i is bit i, from the top, of byte j. */
  lemma FrameBitOfByte(data: seq<bv8>, j: nat, i: nat)
    requires j < |data| && i < 8
    ensures FrameBit(data, 8 * j + i) == MsbBit(data[j], i)
  {
    assert (8 * j + i) / 8 == j && (8 * j + i) % 8 == i;
  }

  // ----------------------------------------------------------------- frame

  /** The frame's header bytes are the length shifted right by 24, 16, 8 and
      0 bits, each masked to its low 8 bits; the message follows. */
  lemma FrameHeader(msg: seq<bv8>)
    requires |msg| <= MaxLength
    ensures var data, n := Frame(msg), |msg|;
      data[0] as int == n / 0x100_0000 % 0x100 &&
      data[1] as int == n / 0x1_0000 % 0x100 &&
      data[2] as int == n / 0x100 % 0x100 &&
      data[3] as int == n % 0x100 &&
      forall j :: 0 <= j < n ==> data[4 + j] == msg[j]
  {
    BigEndianDigits(|msg|);
    var data := Frame(msg);
    assert data[..4] == BigEndian(|msg|);
    forall j | 0 <= j < |msg|
      ensures data[4 + j] == msg[j]
    {
      assert data[4 + j] == data[4..][j];
    }
  }

  // ------------------------------------------------------------ round trip

  /** Decoding an image that carries the frame of a non-empty message that
      fits gives the message back. */
  lemma RoundTrip(width: nat, height: nat, src: seq<bv32>, out: seq<bv32>, msg: seq<bv8>)
    requires |src| == width * height
    requires 0 < |msg| <= MaxLength && RequiredBits(|msg|) <= Capacity(width, height)
    requires Embedded(src, out, Frame(msg))
    ensures Decode(width, height, out) == Ok(msg)
  {
    var data := Frame(msg);
    assert 3 * |src| == Capacity(width, height);
    EmbeddedSlotByte(src, out, data, 0);
    EmbeddedSlotByte(src, out, data, 1);
    EmbeddedSlotByte(src, out, data, 2);
    EmbeddedSlotByte(src, out, data, 3);
    assert LengthField(out) == |msg|;
    var payload := PayloadBytes(out, |msg|);
    forall j | 0 <= j < |msg|
      ensures payload[j] == msg[j]
    {
      EmbeddedSlotByte(src, out, data, 4 + j);
      assert 8 * (4 + j) == 32 + 8 * j;
      assert data[4 + j] == data[4..][j];
    }
    assert payload == msg;
  }

  /** The round trip of the codec's two methods: whatever the source image,
      decoding what encoding returns yields the message. */
  method EncodeThenDecode(src: Image, msg: seq<bv8>) returns (r: Result<seq<bv8>>)
    requires src.Valid()
    requires 0 < |msg| <= MaxLength && RequiredBits(|msg|) <= Capacity(src.width, src.height)
    ensures r == Ok(msg)
  {
    var encoded := StegUtil.EncodeMessage(src, msg);
    var stego := encoded.value;
    r := StegUtil.DecodeMessage(stego);
    RoundTrip(src.width, src.height, src.pixels[..], stego.pixels[..], msg);
  }

  // ------------------------------------------------------------ rejections

  /** An empty message is encoded with length 0, which decoding rejects. */
  lemma EmptyMessageRejected(width: nat, height: nat, src: seq<bv32>, out: seq<bv32>)
    requires |src| == width * height && RequiredBits(0) <= Capacity(width, height)
    requires Embedded(src, out, Frame([]))
    ensures Decode(width, height, out) == Err(InvalidLength(0))
  {
    var data := Frame([]);
    assert 3 * |src| == Capacity(width, height);
    EmbeddedSlotByte(src, out, data, 0);
    EmbeddedSlotByte(src, out, data, 1);
    EmbeddedSlotByte(src, out, data, 2);
    EmbeddedSlotByte(src, out, data, 3);
  }

  /** A length word whose top bit (slot 0) is set reads as a negative int and
      is rejected. */
  lemma TopBitRejected(width: nat, height: nat, pixels: seq<bv32>)
    requires |pixels| == width * height && 32 <= Capacity(width, height)
    requires SlotLsb(pixels, 0) == 1
    ensures Decode(width, height, pixels).Err?
    ensures Decode(width, height, pixels).error.InvalidLength?
    ensures Decode(width, height, pixels).error.len < 0
  {
    var b0 := SlotByte(pixels, 0);
    SlotByteIff(pixels, 0, b0);
    assert MsbBit(b0, 0) == 1;
    HighBit(b0);
    Unsigned32TopBit(b0, SlotByte(pixels, 8), SlotByte(pixels, 16), SlotByte(pixels, 24));
  }

  lemma HighBit(b: bv8)
    requires MsbBit(b, 0) == 1
    ensures b >= 0x80
  {
  }

  /** An image whose 32 length slots all hold 0, whatever its alpha and upper
      bits, has length field 0 and is rejected. */
  lemma ZeroLsbRejected(width: nat, height: nat, pixels: seq<bv32>)
    requires |pixels| == width * height && 32 <= Capacity(width, height)
    requires forall t :: 0 <= t < 32 ==> SlotLsb(pixels, t) == 0
    ensures Decode(width, height, pixels) == Err(InvalidLength(0))
  {
    ZeroSlotByte(pixels, 0);
    ZeroSlotByte(pixels, 8);
    ZeroSlotByte(pixels, 16);
    ZeroSlotByte(pixels, 24);
  }

  lemma ZeroSlotByte(pixels: seq<bv32>, s: nat)
    requires s + 8 <= 32 <= 3 * |pixels|
    requires forall t :: 0 <= t < 32 ==> SlotLsb(pixels, t) == 0
    ensures SlotByte(pixels, s) == 0
  {
    forall i | 0 <= i < 8
      ensures SlotLsb(pixels, s + i) == MsbBit(0, i)
    {
    }
    SlotByteIff(pixels, s, 0);
  }

  /** An image whose words are all 0, such as a fresh raster, holds length 0
      and is rejected whenever it is large enough to hold a length. */
  lemma BlankImageRejected(width: nat, height: nat, pixels: seq<bv32>)
    requires |pixels| == width * height && 32 <= Capacity(width, height)
    requires forall q :: 0 <= q < |pixels| ==> pixels[q] == 0
    ensures Decode(width, height, pixels) == Err(InvalidLength(0))
  {
    forall t | 0 <= t < 32
      ensures SlotLsb(pixels, t) == 0
    {
      assert pixels[t / 3] == 0;
    }
    ZeroLsbRejected(width, height, pixels);
  }

  /** An image smaller than 11 pixels (fewer than 32 slots) never decodes. */
  lemma SmallImageRejected(width: nat, height: nat, pixels: seq<bv32>)
    requires |pixels| == width * height && width * height < 11
    ensures Decode(width, height, pixels) == Err(TruncatedLength)
  {
  }
}
