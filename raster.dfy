/** The pixel buffer the codec works on: a width x height grid of 32-bit ARGB
    words stored row-major (pixel (x, y) at index y * width + x), with the
    channel layout of an ARGB integer: alpha in bits 24..31, red in 16..23,
    green in 8..15, blue in 0..7. */
module Raster {

  /** Alpha channel of an ARGB word, `(rgb >> 24) & 0xFF`: the word's top byte. */
  function Alpha(px: bv32): bv8 {
    ((px >> 24) & 0xFF) as bv8
  }

  /** Alpha is the byte at bits 24..31. */
  lemma AlphaBits(px: bv32)
    ensures (Alpha(px) as bv32) << 24 == px & 0xFF00_0000
  {
  }

  /** Colour channel `c` of an ARGB word: 0 = red (bits 16..23), 1 = green
      (bits 8..15), 2 = blue (bits 0..7). */
  function Channel(px: bv32, c: nat): bv8
    requires c < 3
  {
    if c == 0 then ((px >> 16) & 0xFF) as bv8
    else if c == 1 then ((px >> 8) & 0xFF) as bv8
    else (px & 0xFF) as bv8
  }

  /** Red, green and blue are the bytes at bits 16..23, 8..15 and 0..7. */
  lemma ChannelBits(px: bv32)
    ensures (Channel(px, 0) as bv32) << 16 == px & 0x00FF_0000
    ensures (Channel(px, 1) as bv32) << 8 == px & 0x0000_FF00
    ensures Channel(px, 2) as bv32 == px & 0x0000_00FF
  {
  }

  /** `(a << 24) | (r << 16) | (g << 8) | b`: the word with the given channels. */
  function Argb(a: bv8, r: bv8, g: bv8, b: bv8): (px: bv32)
    ensures Alpha(px) == a
    ensures Channel(px, 0) == r && Channel(px, 1) == g && Channel(px, 2) == b
  {
    ((a as bv32) << 24) | ((r as bv32) << 16) | ((g as bv32) << 8) | (b as bv32)
  }

  /** A word is determined by its four channels. */
  lemma ArgbOfChannels(px: bv32)
    ensures Argb(Alpha(px), Channel(px, 0), Channel(px, 1), Channel(px, 2)) == px
  {
  }

  /** Two words with the same four channels are the same word. */
  lemma ChannelsDetermineWord(p: bv32, q: bv32)
    requires Alpha(p) == Alpha(q)
    requires forall c :: 0 <= c < 3 ==> Channel(p, c) == Channel(q, c)
    ensures p == q
  {
    assert Channel(p, 0) == Channel(q, 0);
    assert Channel(p, 1) == Channel(q, 1);
    assert Channel(p, 2) == Channel(q, 2);
    ArgbOfChannels(p);
    ArgbOfChannels(q);
  }

  /** Row-major addressing stays inside a width x height grid. */
  lemma RowMajorInBounds(x: nat, y: nat, width: nat, height: nat)
    requires x < width && y < height
    ensures y * width + x < width * height
  {
    assert (y + 1) * width <= height * width by {
      MulLe(y + 1, height, width);
    }
  }

  lemma MulLe(a: nat, b: nat, c: nat)
    requires a <= b
    ensures a * c <= b * c
  {
  }

  /** An image buffer: the abstract stand-in for the ARGB raster the codec
      reads with getRGB and writes with setRGB. */
  class Image {
    const width: nat
    const height: nat
    const pixels: array<bv32>

    predicate Valid() {
      pixels.Length == width * height
    }

    /** A fresh image of the given size, every word 0, as a new ARGB
        raster starts out. */
    constructor (width: nat, height: nat)
      ensures Valid() && this.width == width && this.height == height
      ensures fresh(pixels)
      ensures forall i :: 0 <= i < pixels.Length ==> pixels[i] == 0
    {
      this.width := width;
      this.height := height;
      pixels := new bv32[width * height](_ => 0);
    }

    /** The word of pixel (x, y). */
    function GetRGB(x: nat, y: nat): (px: bv32)
      reads pixels
      requires Valid() && x < width && y < height
      ensures y * width + x < pixels.Length && px == pixels[y * width + x]
    {
      RowMajorInBounds(x, y, width, height);
      pixels[y * width + x]
    }

    /** Overwrites the word of pixel (x, y) and nothing else. */
    method SetRGB(x: nat, y: nat, px: bv32)
      requires Valid() && x < width && y < height
      modifies pixels
      ensures y * width + x < pixels.Length
      ensures pixels[..] == old(pixels[..])[y * width + x := px]
      ensures pixels[y * width + x] == px
      ensures forall q :: 0 <= q < pixels.Length && q != y * width + x ==> pixels[q] == old(pixels[q])
    {
      RowMajorInBounds(x, y, width, height);
      pixels[y * width + x] := px;
    }
  }
}
