/** The hidden-message format: the order in which an image's colour channels
    carry bits (the slot sequence), the length-prefixed frame written into
    them, and what a correct encoder and decoder compute, stated as functions
    and predicates over the pixel words. */
module StegFormat {
  import opened Raster

  /** The largest length of a Java array, so the largest message. */
  const MaxLength: nat := 0x7FFF_FFFF

  /** The failures the codec reports (each an IllegalArgumentException thrown by the
      Java code, told apart by its message). */
  datatype Error =
    | CapacityExceeded        // encode: the frame needs more slots than the image has
    | TruncatedLength         // decode: fewer than 32 slots, no length field
    | InvalidLength(len: int) // decode: the length field read as a signed int is <= 0
    | LengthExceedsCapacity   // decode: the stated length does not fit the image

  datatype Result<T> = Ok(value: T) | Err(error: Error)

  /** Number of bit slots of a width x height image: one per R, G, B channel. */
  function Capacity(width: nat, height: nat): nat {
    width * height * 3
  }

  /** Slots a frame for a message of `len` bytes occupies: 32 length bits and
      8 bits per byte. */
  function RequiredBits(len: nat): nat {
    32 + 8 * len
  }

  // ---------------------------------------------------------------- slots

  /** The slot number of channel `c` of pixel (x, y): pixels row-major, and
      within a pixel R, G, B. */
  function SlotOf(x: nat, y: nat, c: nat, width: nat): nat {
    3 * (y * width + x) + c
  }

  /** The pixel and channel that carry slot `s`. */
  function Locate(s: nat, width: nat, height: nat): (loc: (nat, nat, nat))
    requires s < Capacity(width, height)
    ensures loc.0 < width && loc.1 < height && loc.2 < 3
    ensures SlotOf(loc.0, loc.1, loc.2, width) == s
  {
    var p := s / 3;
    assert p < width * height;
    assert width > 0;
    DivBelow(p, width, height);
    (p % width, p / width, s % 3)
  }

  lemma DivBelow(p: nat, width: nat, height: nat)
    requires width > 0 && p < width * height
    ensures p / width < height
  {
    if p / width >= height {
      MulLe(height, p / width, width);
    }
  }

  /** Slots never collide and follow the visiting order: rows top to bottom,
      pixels left to right, then R, G, B. */
  lemma {:induction false} SlotOrder(x1: nat, y1: nat, c1: nat, x2: nat, y2: nat, c2: nat, width: nat)
    requires x1 < width && x2 < width && c1 < 3 && c2 < 3
    requires y1 < y2 || (y1 == y2 && x1 < x2) || (y1 == y2 && x1 == x2 && c1 < c2)
    ensures SlotOf(x1, y1, c1, width) < SlotOf(x2, y2, c2, width)
  {
    if y1 < y2 {
      MulLe(y1 + 1, y2, width);
      assert y1 * width + x1 < (y1 + 1) * width;
    }
  }

  /** The bit slot `s` carries: the least significant bit of its channel. */
  function SlotLsb(pixels: seq<bv32>, s: nat): (bit: bv8)
    requires s < 3 * |pixels|
    ensures bit <= 1
  {
    Channel(pixels[s / 3], s % 3) & 1
  }

  /** Slot 3p + c is channel c of pixel p: the one statement of where a slot
      lives, of which SlotAtLocation and StegUtil.SlotOfChannels are views. */
  lemma SlotOfPixel(pixels: seq<bv32>, p: nat, c: nat)
    requires p < |pixels| && c < 3
    ensures SlotLsb(pixels, 3 * p + c) == Channel(pixels[p], c) & 1
  {
    assert (3 * p + c) / 3 == p && (3 * p + c) % 3 == c;
  }

  /** The bit of slot s is the lowest bit of channel c of pixel (x, y), for
      the (x, y, c) that Locate gives: SlotOfPixel in the coordinates the
      codec's loops pass to getRGB. */
  lemma SlotAtLocation(img: Image, s: nat)
    requires img.Valid() && s < Capacity(img.width, img.height)
    ensures var loc := Locate(s, img.width, img.height);
      SlotLsb(img.pixels[..], s) == Channel(img.GetRGB(loc.0, loc.1), loc.2) & 1
  {
    var loc := Locate(s, img.width, img.height);
    assert loc.1 * img.width + loc.0 == s / 3 && 3 * (s / 3) + s % 3 == s;
    SlotOfPixel(img.pixels[..], s / 3, s % 3);
  }

  // ---------------------------------------------------------------- frame

  /** Bit i of a byte counted from the most significant end, `(b >> (7 - i)) & 1`. */
  function MsbBit(b: bv8, i: nat): (bit: bv8)
    requires i < 8
    ensures bit <= 1
  {
    (b >> (7 - i)) & 1
  }

  /** The 4 bytes `(n >> 24) & 0xFF`, `(n >> 16) & 0xFF`, `(n >> 8) & 0xFF`,
      `n & 0xFF` of a non-negative int, i.e. its base-256 digits. */
  function BigEndian(n: nat): (bytes: seq<bv8>)
    requires n < 0x1_0000_0000
    ensures |bytes| == 4
  {
    var d3 := n % 0x100;
    var n1 := n / 0x100;
    var d2 := n1 % 0x100;
    var n2 := n1 / 0x100;
    var d1 := n2 % 0x100;
    var d0 := n2 / 0x100;
    [ByteOf(d0), ByteOf(d1), ByteOf(d2), ByteOf(d3)]
  }

  /** `(b0 << 24) | (b1 << 16) | (b2 << 8) | b3` as an unsigned 32-bit value:
      the bytes occupy disjoint bits, so the or is their weighted sum. */
  function Unsigned32(b0: bv8, b1: bv8, b2: bv8, b3: bv8): (u: nat)
    ensures u < 0x1_0000_0000
  {
    ((b0 as int * 0x100 + b1 as int) * 0x100 + b2 as int) * 0x100 + b3 as int
  }

  /** An unsigned 32-bit value read back as a Java (two's-complement) int. */
  function ToInt32(u: nat): (n: int)
    requires u < 0x1_0000_0000
    ensures -0x8000_0000 <= n < 0x8000_0000
    ensures n < 0 <==> u >= 0x8000_0000
    ensures n % 0x1_0000_0000 == u
  {
    if u < 0x8000_0000 then u else u - 0x1_0000_0000
  }

  /** The unsigned value has its top bit set exactly when the first byte has. */
  lemma Unsigned32TopBit(b0: bv8, b1: bv8, b2: bv8, b3: bv8)
    ensures Unsigned32(b0, b1, b2, b3) >= 0x8000_0000 <==> b0 >= 0x80
  {
    assert b0 >= 0x80 <==> b0 as int >= 0x80;
  }

  /** The byte whose unsigned value is x, built bit by bit rather than as
      `x as bv8`, so that proofs about it need no int-to-bit-vector conversion. */
  function ByteOf(x: nat): bv8
    requires x < 0x100
  {
    if x == 0 then 0 else (ByteOf(x / 2) << 1) | (if x % 2 == 1 then 1 else 0)
  }

  lemma {:induction false} ByteOfValue(x: nat)
    requires x < 0x100
    ensures ByteOf(x) as int == x
  {
    if x > 0 {
      ByteOfValue(x / 2);
      assert ByteOf(x / 2) as int < 0x80;
      var low: bv8 := if x % 2 == 1 then 1 else 0;
      assert low as int == x % 2;
      ShiftInValue(ByteOf(x / 2), low);
    }
  }

  lemma ShiftInValue(b: bv8, low: bv8)
    requires b < 0x80 && low <= 1
    ensures ((b << 1) | low) as int == 2 * (b as int) + low as int
  {
  }

  /** Reading the 4 header bytes back yields the value they were made from. */
  lemma Unsigned32OfBigEndian(n: nat)
    requires n < 0x1_0000_0000
    ensures var b := BigEndian(n); Unsigned32(b[0], b[1], b[2], b[3]) == n
  {
    var d3 := n % 0x100;
    var n1 := n / 0x100;
    var d2 := n1 % 0x100;
    var n2 := n1 / 0x100;
    var d1 := n2 % 0x100;
    var d0 := n2 / 0x100;
    ByteOfValue(d0);
    ByteOfValue(d1);
    ByteOfValue(d2);
    ByteOfValue(d3);
    assert n2 == d0 * 0x100 + d1;
    assert n1 == n2 * 0x100 + d2;
    assert n == n1 * 0x100 + d3;
  }

  /** The header bytes are the base-256 digits of n, most significant
      first: `(n >> 24) & 0xFF`, `(n >> 16) & 0xFF`, `(n >> 8) & 0xFF`, `n & 0xFF`. */
  lemma BigEndianDigits(n: nat)
    requires n < 0x1_0000_0000
    ensures var b := BigEndian(n);
      b[0] as int == n / 0x100_0000 % 0x100 &&
      b[1] as int == n / 0x1_0000 % 0x100 &&
      b[2] as int == n / 0x100 % 0x100 &&
      b[3] as int == n % 0x100
  {
    var n1 := n / 0x100;
    var n2 := n1 / 0x100;
    ByteOfValue(n % 0x100);
    ByteOfValue(n1 % 0x100);
    ByteOfValue(n2 % 0x100);
    ByteOfValue(n2 / 0x100);
    DivTwice(n);
    DivThrice(n);
  }

  /** The assembled value has b0, b1, b2, b3 as its base-256 digits, most
      significant first: each byte sits in its own 8 bits of the word. */
  lemma Unsigned32Digits(b0: bv8, b1: bv8, b2: bv8, b3: bv8)
    ensures var u := Unsigned32(b0, b1, b2, b3);
      u / 0x100_0000 == b0 as int &&
      u / 0x1_0000 % 0x100 == b1 as int &&
      u / 0x100 % 0x100 == b2 as int &&
      u % 0x100 == b3 as int
  {
    var u := Unsigned32(b0, b1, b2, b3);
    var x1 := b0 as int * 0x100 + b1 as int;
    var x2 := x1 * 0x100 + b2 as int;
    LowDigit(u, x2, b3 as int);
    LowDigit(x2, x1, b2 as int);
    LowDigit(x1, b0 as int, b1 as int);
    DivTwice(u);
    DivThrice(u);
  }

  /** The last base-256 digit of 256 * q + d is d, and the rest is q. */
  lemma LowDigit(n: int, q: int, d: int)
    requires 0 <= q && 0 <= d < 0x100 && n == q * 0x100 + d
    ensures n / 0x100 == q && n % 0x100 == d
  {
  }

  /** Dropping the low byte twice drops the low 16 bits. */
  lemma DivTwice(n: nat)
    ensures n / 0x100 / 0x100 == n / 0x1_0000
  {
    var n1 := n / 0x100;
    assert n == 0x100 * n1 + n % 0x100;
    assert n1 == 0x100 * (n1 / 0x100) + n1 % 0x100;
    assert n == 0x1_0000 * (n1 / 0x100) + (0x100 * (n1 % 0x100) + n % 0x100);
  }

  /** Dropping the low 16 bits, then the low byte, drops the low 24 bits. */
  lemma DivThrice(n: nat)
    ensures n / 0x1_0000 / 0x100 == n / 0x100_0000
  {
    var n2 := n / 0x1_0000;
    assert n == 0x1_0000 * n2 + n % 0x1_0000;
    assert n2 == 0x100 * (n2 / 0x100) + n2 % 0x100;
    assert n == 0x100_0000 * (n2 / 0x100) + (0x1_0000 * (n2 % 0x100) + n % 0x1_0000);
  }

  /** The frame of a message: its length as 4 big-endian bytes, then the
      message bytes. */
  function Frame(msg: seq<bv8>): (data: seq<bv8>)
    requires |msg| <= MaxLength
    ensures |data| == 4 + |msg| && data[4..] == msg
    ensures ToInt32(Unsigned32(data[0], data[1], data[2], data[3])) == |msg|
  {
    Unsigned32OfBigEndian(|msg|);
    BigEndian(|msg|) + msg
  }

  /** Bit `k` of a byte sequence, most significant bit of each byte first. */
  function FrameBit(data: seq<bv8>, k: nat): (bit: bv8)
    requires k < 8 * |data|
    ensures bit <= 1
  {
    MsbBit(data[k / 8], k % 8)
  }

  // --------------------------------------------------------------- encode

  /** A channel that was given the frame bit of slot `s` (or, past the end
      of the frame, left alone): only its lowest bit may differ. */
  predicate ChannelCarries(src: bv8, out: bv8, s: nat, data: seq<bv8>) {
    out >> 1 == src >> 1 &&
    out & 1 == (if s < 8 * |data| then FrameBit(data, s) else src & 1)
  }

  /** The channel value that carries slot `s`: the frame bit replaces the
      lowest bit, `(src & 0xFE) | bit`, while frame bits remain. */
  function CarryChannel(src: bv8, s: nat, data: seq<bv8>): bv8 {
    if s < 8 * |data| then (src & 0xFE) | FrameBit(data, s) else src
  }

  /** The channel CarryChannel produces is the one ChannelCarries describes. */
  lemma CarryChannelCarries(src: bv8, s: nat, data: seq<bv8>)
    ensures ChannelCarries(src, CarryChannel(src, s, data), s, data)
  {
    if s < 8 * |data| {
      var bit := FrameBit(data, s);
      assert bit <= 1;
    }
  }

  /** A pixel whose R, G, B channels are slots s, s+1, s+2, and whose alpha
      is kept. */
  predicate PixelCarries(src: bv32, out: bv32, s: nat, data: seq<bv8>) {
    Alpha(out) == Alpha(src) &&
    ChannelCarries(Channel(src, 0), Channel(out, 0), s, data) &&
    ChannelCarries(Channel(src, 1), Channel(out, 1), s + 1, data) &&
    ChannelCarries(Channel(src, 2), Channel(out, 2), s + 2, data)
  }

  /** Pixel q of `out` carries slots 3q .. 3q+2 of the frame over pixel q of `src`. */
  predicate CarriedAt(src: seq<bv32>, out: seq<bv32>, data: seq<bv8>, q: nat) {
    q < |src| && q < |out| && PixelCarries(src[q], out[q], 3 * q, data)
  }

  /** `out` is `src` with the frame written into the slot sequence. */
  predicate Embedded(src: seq<bv32>, out: seq<bv32>, data: seq<bv8>) {
    |out| == |src| &&
    forall q :: 0 <= q < |src| ==> CarriedAt(src, out, data, q)
  }

  // --------------------------------------------------------------- decode

  /** Slots s .. s+n-1 shifted in most significant first, as
      `currentByte = (currentByte << 1) | bit` gathers them. */
  function Packed(pixels: seq<bv32>, s: nat, n: nat): bv8
    requires n <= 8 && s + n <= 3 * |pixels|
  {
    if n == 0 then 0 else (Packed(pixels, s, n - 1) << 1) | SlotLsb(pixels, s + n - 1)
  }

  /** Slots s .. s+n-1 placed at bit 7, 6, ..., as
      `msgBytes[pos] |= bit << (7 - idx % 8)` gathers them. */
  function Placed(pixels: seq<bv32>, s: nat, n: nat): bv8
    requires n <= 8 && s + n <= 3 * |pixels|
  {
    if n == 0 then 0 else Placed(pixels, s, n - 1) | (SlotLsb(pixels, s + n - 1) << (8 - n))
  }

  /** The byte carried by the 8 slots from `s`. */
  function SlotByte(pixels: seq<bv32>, s: nat): bv8
    requires s + 8 <= 3 * |pixels|
  {
    Packed(pixels, s, 8)
  }

  /** The `len` payload bytes that follow the length field. */
  function PayloadBytes(pixels: seq<bv32>, len: nat): (msg: seq<bv8>)
    requires 32 + 8 * len <= 3 * |pixels|
    ensures |msg| == len
  {
    seq(len, j requires 0 <= j < len => SlotByte(pixels, 32 + 8 * j))
  }

  /** The length field: the first four slot bytes, big-endian. */
  function LengthField(pixels: seq<bv32>): int
    requires 32 <= 3 * |pixels|
  {
    ToInt32(Unsigned32(SlotByte(pixels, 0), SlotByte(pixels, 8), SlotByte(pixels, 16), SlotByte(pixels, 24)))
  }

  /** What decoding a width x height image yields. */
  function Decode(width: nat, height: nat, pixels: seq<bv32>): (r: Result<seq<bv8>>)
    requires |pixels| == width * height
    ensures r == Err(TruncatedLength) <==> Capacity(width, height) < 32
    ensures r.Ok? ==> 0 < |r.value| <= MaxLength && RequiredBits(|r.value|) <= Capacity(width, height)
  {
    if Capacity(width, height) < 32 then Err(TruncatedLength)
    else
      var msgLen := LengthField(pixels);
      if msgLen <= 0 then Err(InvalidLength(msgLen))
      else if RequiredBits(msgLen) > Capacity(width, height) then Err(LengthExceedsCapacity)
      else Ok(PayloadBytes(pixels, msgLen))
  }

  // --------------------------------------------------------------- lemmas

  /** The 8 slots from s, shifted in one after the other. */
  lemma SlotByteUnfold(pixels: seq<bv32>, s: nat)
    requires s + 8 <= 3 * |pixels|
    ensures SlotByte(pixels, s) ==
      Pack(SlotLsb(pixels, s), SlotLsb(pixels, s + 1), SlotLsb(pixels, s + 2), SlotLsb(pixels, s + 3),
           SlotLsb(pixels, s + 4), SlotLsb(pixels, s + 5), SlotLsb(pixels, s + 6), SlotLsb(pixels, s + 7))
  {
    assert Packed(pixels, s, 1) == SlotLsb(pixels, s);
    assert Packed(pixels, s, 2) == (Packed(pixels, s, 1) << 1) | SlotLsb(pixels, s + 1);
    assert Packed(pixels, s, 3) == (Packed(pixels, s, 2) << 1) | SlotLsb(pixels, s + 2);
    assert Packed(pixels, s, 4) == (Packed(pixels, s, 3) << 1) | SlotLsb(pixels, s + 3);
    assert Packed(pixels, s, 5) == (Packed(pixels, s, 4) << 1) | SlotLsb(pixels, s + 4);
    assert Packed(pixels, s, 6) == (Packed(pixels, s, 5) << 1) | SlotLsb(pixels, s + 5);
    assert Packed(pixels, s, 7) == (Packed(pixels, s, 6) << 1) | SlotLsb(pixels, s + 6);
    assert Packed(pixels, s, 8) == (Packed(pixels, s, 7) << 1) | SlotLsb(pixels, s + 7);
  }

  /** Eight bits shifted in, first one ending up as bit 7: `Packed` at 8 bits
      written out, so that bit-vector facts about it need no recursion. */
  function Pack(x0: bv8, x1: bv8, x2: bv8, x3: bv8, x4: bv8, x5: bv8, x6: bv8, x7: bv8): bv8 {
    (((((((((((((x0 << 1) | x1) << 1) | x2) << 1) | x3) << 1) | x4) << 1) | x5) << 1) | x6) << 1) | x7
  }

  /** Packing a byte's bits, most significant first, gives the byte back. */
  lemma PackMsbBits(b: bv8)
    ensures Pack(MsbBit(b, 0), MsbBit(b, 1), MsbBit(b, 2), MsbBit(b, 3),
                 MsbBit(b, 4), MsbBit(b, 5), MsbBit(b, 6), MsbBit(b, 7)) == b
  {
  }

  /** Bit i of a packed byte, most significant first, is the i-th bit packed. */
  lemma MsbBitsOfPack(x0: bv8, x1: bv8, x2: bv8, x3: bv8, x4: bv8, x5: bv8, x6: bv8, x7: bv8)
    requires x0 <= 1 && x1 <= 1 && x2 <= 1 && x3 <= 1 && x4 <= 1 && x5 <= 1 && x6 <= 1 && x7 <= 1
    ensures var b := Pack(x0, x1, x2, x3, x4, x5, x6, x7);
      MsbBit(b, 0) == x0 && MsbBit(b, 1) == x1 && MsbBit(b, 2) == x2 && MsbBit(b, 3) == x3 &&
      MsbBit(b, 4) == x4 && MsbBit(b, 5) == x5 && MsbBit(b, 6) == x6 && MsbBit(b, 7) == x7
  {
  }

  /** The byte in 8 slots is b exactly when the slots hold b's bits, most
      significant first. */
  lemma SlotByteIff(pixels: seq<bv32>, s: nat, b: bv8)
    requires s + 8 <= 3 * |pixels|
    ensures SlotByte(pixels, s) == b <==>
            forall i :: 0 <= i < 8 ==> SlotLsb(pixels, s + i) == MsbBit(b, i)
  {
    SlotByteUnfold(pixels, s);
    if forall i :: 0 <= i < 8 ==> SlotLsb(pixels, s + i) == MsbBit(b, i) {
      assert SlotLsb(pixels, s + 0) == MsbBit(b, 0);
      assert SlotLsb(pixels, s + 1) == MsbBit(b, 1);
      assert SlotLsb(pixels, s + 2) == MsbBit(b, 2);
      assert SlotLsb(pixels, s + 3) == MsbBit(b, 3);
      assert SlotLsb(pixels, s + 4) == MsbBit(b, 4);
      assert SlotLsb(pixels, s + 5) == MsbBit(b, 5);
      assert SlotLsb(pixels, s + 6) == MsbBit(b, 6);
      assert SlotLsb(pixels, s + 7) == MsbBit(b, 7);
      PackMsbBits(b);
    }
    if SlotByte(pixels, s) == b {
      MsbBitsOfPack(SlotLsb(pixels, s), SlotLsb(pixels, s + 1), SlotLsb(pixels, s + 2), SlotLsb(pixels, s + 3),
                    SlotLsb(pixels, s + 4), SlotLsb(pixels, s + 5), SlotLsb(pixels, s + 6), SlotLsb(pixels, s + 7));
      forall i | 0 <= i < 8
        ensures SlotLsb(pixels, s + i) == MsbBit(b, i)
      {
        assert s + i == s + 0 || s + i == s + 1 || s + i == s + 2 || s + i == s + 3 ||
               s + i == s + 4 || s + i == s + 5 || s + i == s + 6 || s + i == s + 7;
      }
    }
  }

  /** Or-ing each of the 8 slot bits into its place gathers the same byte as
      shifting them in. */
  lemma PlacedIsSlotByte(pixels: seq<bv32>, s: nat)
    requires s + 8 <= 3 * |pixels|
    ensures Placed(pixels, s, 8) == SlotByte(pixels, s)
  {
    SlotByteUnfold(pixels, s);
    PlacedUnfold(pixels, s);
    PlaceIsPack(SlotLsb(pixels, s), SlotLsb(pixels, s + 1), SlotLsb(pixels, s + 2), SlotLsb(pixels, s + 3),
                SlotLsb(pixels, s + 4), SlotLsb(pixels, s + 5), SlotLsb(pixels, s + 6), SlotLsb(pixels, s + 7));
  }

  /** The 8 slots from s, each or-ed into its place. */
  lemma PlacedUnfold(pixels: seq<bv32>, s: nat)
    requires s + 8 <= 3 * |pixels|
    ensures Placed(pixels, s, 8) ==
      Place(SlotLsb(pixels, s), SlotLsb(pixels, s + 1), SlotLsb(pixels, s + 2), SlotLsb(pixels, s + 3),
            SlotLsb(pixels, s + 4), SlotLsb(pixels, s + 5), SlotLsb(pixels, s + 6), SlotLsb(pixels, s + 7))
  {
    assert Placed(pixels, s, 1) == SlotLsb(pixels, s) << 7;
    assert Placed(pixels, s, 2) == Placed(pixels, s, 1) | (SlotLsb(pixels, s + 1) << 6);
    assert Placed(pixels, s, 3) == Placed(pixels, s, 2) | (SlotLsb(pixels, s + 2) << 5);
    assert Placed(pixels, s, 4) == Placed(pixels, s, 3) | (SlotLsb(pixels, s + 3) << 4);
    assert Placed(pixels, s, 5) == Placed(pixels, s, 4) | (SlotLsb(pixels, s + 4) << 3);
    assert Placed(pixels, s, 6) == Placed(pixels, s, 5) | (SlotLsb(pixels, s + 5) << 2);
    assert Placed(pixels, s, 7) == Placed(pixels, s, 6) | (SlotLsb(pixels, s + 6) << 1);
    assert Placed(pixels, s, 8) == Placed(pixels, s, 7) | (SlotLsb(pixels, s + 7) << 0);
  }

  /** Eight bits placed at bit 7, 6, ..., 0: `Placed` at 8 bits written out,
      so that it can be compared with `Pack` by bit-vector reasoning alone. */
  function Place(x0: bv8, x1: bv8, x2: bv8, x3: bv8, x4: bv8, x5: bv8, x6: bv8, x7: bv8): bv8 {
    (x0 << 7) | (x1 << 6) | (x2 << 5) | (x3 << 4) | (x4 << 3) | (x5 << 2) | (x6 << 1) | (x7 << 0)
  }

  lemma PlaceIsPack(x0: bv8, x1: bv8, x2: bv8, x3: bv8, x4: bv8, x5: bv8, x6: bv8, x7: bv8)
    requires x0 <= 1 && x1 <= 1 && x2 <= 1 && x3 <= 1 && x4 <= 1 && x5 <= 1 && x6 <= 1 && x7 <= 1
    ensures Place(x0, x1, x2, x3, x4, x5, x6, x7) == Pack(x0, x1, x2, x3, x4, x5, x6, x7)
  {
  }
}
