/**
 * What the encoder's output means to a reader: a file produced by `encode` parses back to the
 * header the encoder filled in, announces its own length and pixel-data offset, and gives
 * back, pixel for pixel, the colours of the input.
 */
module BmpRoundTrip {
  import opened Wrappers
  import opened Bytes
  import opened BmpHeader
  import opened BmpLayout
  import opened PixelPacking
  import opened BmpReader
  import opened Bmp

  /** Input element `i` as a colour channel: its low byte, or 0 past the end of the input. */
  function Channel(data: seq<int>, i: nat): (c: nat)
    ensures c < 256
  {
    if i < |data| then data[i] % 256 else 0
  }

  /**
   * The colour pixel (x, y) of the input stands for: for one bit per pixel white exactly when
   * element `y * width + x` is 0xFF, otherwise black; for 24 bits the elements
   * `3(y * width + x)`, `+1`, `+2` as red, green and blue.
   */
  function InputPixel(data: seq<int>, width: nat, bitsPerPixel: nat, x: nat, y: nat): Rgb
  {
    var i := y * width + x;
    if bitsPerPixel == 1 then
      if i < |data| && data[i] == 0xFF then White else Black
    else
      Rgb(Channel(data, 3 * i), Channel(data, 3 * i + 1), Channel(data, 3 * i + 2))
  }

  /** The encoded file parses back to the encoder's header, which gives the file's own length and the start of its pixel data. */
  lemma EncodedHeader(data: seq<int>, width: nat, height: nat, bitsPerPixel: nat)
    requires IsSupported(bitsPerPixel) && FitsHeader(width, height, bitsPerPixel)
    ensures var file := EncodedFile(data, width, height, bitsPerPixel);
      var h := EncoderHeader(width, height, bitsPerPixel);
      && ParseHeader(file) == Some(h)
      && h.fileSize == |file|
      && h.dataOffset == |HeaderBytes(h)| == |file| - PixelDataSize(width, height, bitsPerPixel)
  {
    var h := EncoderHeader(width, height, bitsPerPixel);
    ParseRoundTrip(h, PixelData(data, width, height, bitsPerPixel));
  }

  /**
   * The fields of the encoded file at their offsets: "BM", the file size (the file's own
   * length), a reserved zero, the pixel-data offset, the information-header size 40, the width,
   * minus the height (rows stored top-down), one plane, the bit depth, no compression, the
   * image-size field as computed, zero resolutions, and two colours for one bit per pixel.
   */
  lemma EncodedFields(data: seq<int>, width: nat, height: nat, bitsPerPixel: nat)
    requires IsSupported(bitsPerPixel) && FitsHeader(width, height, bitsPerPixel)
    ensures var file := EncodedFile(data, width, height, bitsPerPixel);
      var headerSize := if bitsPerPixel == 1 then 62 else 54;
      var colors := if bitsPerPixel == 1 then 2 else 0;
      && |file| >= headerSize
      && file[..2] == Signature
      && Uint32At(file, 2) == headerSize + height * PaddedWidthBytes(width, bitsPerPixel) == |file|
      && Uint32At(file, 6) == 0
      && Uint32At(file, 10) == headerSize
      && Uint32At(file, 14) == 40
      && Int32At(file, 18) == width
      && Int32At(file, 22) == -(height as int)
      && Uint16At(file, 26) == 1
      && Uint16At(file, 28) == bitsPerPixel
      && Uint32At(file, 30) == 0
      && Uint32At(file, 34) == width * height * bitsPerPixel / 8
      && Int32At(file, 38) == 0 && Int32At(file, 42) == 0
      && Uint32At(file, 46) == colors && Uint32At(file, 50) == colors
  {
    var h := EncoderHeader(width, height, bitsPerPixel);
    var tail := PaletteBytes(h.palette) + PixelData(data, width, height, bitsPerPixel);
    assert EncodedFile(data, width, height, bitsPerPixel) == FixedBytes(h) + tail;
    FixedFields(h, tail);
  }

  /** For one bit per pixel the colour table follows the headers: black at offset 54, white at 58. */
  lemma EncodedPalette(data: seq<int>, width: nat, height: nat)
    requires FitsHeader(width, height, 1)
    ensures var file := EncodedFile(data, width, height, 1);
      && |file| >= 62
      && Uint32At(file, 54) == 0x00000000 && Uint32At(file, 58) == 0x00FFFFFF
  {
    var h := EncoderHeader(width, height, 1);
    var pixels := PixelData(data, width, height, 1);
    assert h.palette == MonochromePalette && h.colorsUsed == 2;
    PaletteEntryRead(h, pixels, 0);
    PaletteEntryRead(h, pixels, 1);
  }

  /** Every pixel of the image reads back as the colour of the input pixel. */
  lemma EncodedPixelReadsBack(data: seq<int>, width: nat, height: nat, bitsPerPixel: nat, x: nat, y: nat)
    requires IsSupported(bitsPerPixel) && FitsHeader(width, height, bitsPerPixel)
    requires x < width && y < height
    ensures ReadPixel(EncodedFile(data, width, height, bitsPerPixel), x, y) == Some(InputPixel(data, width, bitsPerPixel, x, y))
  {
    var h := EncoderHeader(width, height, bitsPerPixel);
    var file := EncodedFile(data, width, height, bitsPerPixel);
    var hb := HeaderBytes(h);
    assert file == hb + PixelData(data, width, height, bitsPerPixel);
    EncodedHeader(data, width, height, bitsPerPixel);
    var start := RowStart(h, y);
    EncoderGeometry(width, height, bitsPerPixel, y);
    ReadPixelAt(file, h, x, y, start);
    if bitsPerPixel == 1 {
      MonochromeReadBack(hb, data, width, height, x, y, start);
    } else {
      RgbReadBack(hb, data, width, height, x, y, start);
    }
  }

  /** Once the header is known, `ReadPixel` reads the pixel from the start of its stored row. */
  lemma ReadPixelAt(file: seq<bv8>, h: Header, x: nat, y: nat, start: nat)
    requires ParseHeader(file) == Some(h) && h.compression == 0 && x < h.width && y < Rows(h)
    requires start == RowStart(h, y)
    ensures h.bitsPerPixel == 1 ==> ReadPixel(file, x, y) == ReadIndexed(file, h.palette, start + x / 8, 7 - x % 8)
    ensures h.bitsPerPixel == 24 ==> ReadPixel(file, x, y) == ReadRgb(file, start + 3 * x)
  {
  }

  /** The encoder's header describes a top-down image of `height` rows of the encoder's padded width. */
  lemma EncoderGeometry(width: nat, height: nat, bitsPerPixel: nat, y: nat)
    requires IsSupported(bitsPerPixel) && FitsHeader(width, height, bitsPerPixel) && y < height
    ensures var h := EncoderHeader(width, height, bitsPerPixel);
      && h.width == width && h.bitsPerPixel == bitsPerPixel && h.compression == 0
      && Rows(h) == height && StoredRowIndex(h, y) == y
      && StoredRowIndex(h, y) * Stride(h) == RowMajor(PaddedWidthBytes(width, bitsPerPixel), y, 0)
  {
    var h := EncoderHeader(width, height, bitsPerPixel);
    var stride := PaddedWidthBytes(width, bitsPerPixel);
    PaddedWidthIsStride(width, bitsPerPixel);
    assert Stride(h) == stride;
    RowMajorProduct(stride, y, 0);
  }

  /** One bit per pixel: the bit of pixel (x, y), after any header block `hb`, picks the black or the white colour-table entry. */
  lemma MonochromeReadBack(hb: seq<bv8>, data: seq<int>, width: nat, height: nat, x: nat, y: nat, start: nat)
    requires x < width && y < height
    requires start == |hb| + RowMajor(PaddedWidthBytes(width, 1), y, 0)
    ensures ReadIndexed(hb + PixelData(data, width, height, 1), MonochromePalette, start + x / 8, 7 - x % 8)
      == Some(InputPixel(data, width, 1, x, y))
  {
    var stride := PaddedWidthBytes(width, 1);
    var pixels := PixelData(data, width, height, 1);
    MonochromePixelBit(data, width, height, x, y);
    var j := RowMajor(stride, y, x / 8);
    assert start + x / 8 == |hb| + j by {
      RowMajorOffset(stride, y, x / 8);
    }
    MonochromeBitIn(hb, pixels, j, start + x / 8, x % 8, IsWhite(data, RowMajor(width, y, x)));
    MonochromeInputColor(hb + pixels, start + x / 8, 7 - x % 8, data, width, x, y);
  }

  /** A one-bit pixel that reads as its input element's colour reads as the input pixel. */
  lemma MonochromeInputColor(file: seq<bv8>, at: nat, bit: nat, data: seq<int>, width: nat, x: nat, y: nat)
    requires bit < 8
    requires ReadIndexed(file, MonochromePalette, at, bit) == Some(if IsWhite(data, RowMajor(width, y, x)) then White else Black)
    ensures ReadIndexed(file, MonochromePalette, at, bit) == Some(InputPixel(data, width, 1, x, y))
  {
    MonochromeInputPixel(data, width, x, y);
  }

  /** Byte `j` of the pixel data, after the header block, reads as white exactly when its `Mask(k)` bit is set. */
  lemma MonochromeBitIn(hb: seq<bv8>, pixels: seq<bv8>, j: nat, at: nat, k: nat, white: bool)
    requires j < |pixels| && at == |hb| + j && k < 8
    requires IsSet(pixels[j], k) <==> white
    ensures ReadIndexed(hb + pixels, MonochromePalette, at, 7 - k) == Some(if white then White else Black)
  {
    AppendIndex(hb, pixels, j, at);
    ShiftedBit(pixels[j], k);
    MonochromeLookup(hb + pixels, at, 7 - k);
  }

  /** A one-bit pixel inside the file reads as white when its bit is set and black otherwise. */
  lemma MonochromeLookup(file: seq<bv8>, at: nat, bit: nat)
    requires at < |file| && bit < 8
    ensures ReadIndexed(file, MonochromePalette, at, bit) == Some(if Bit(file[at], bit) then White else Black)
  {
    MonochromeColors();
  }

  /** The one-bit colour table holds black at index 0 and white at index 1. */
  lemma MonochromeColors()
    ensures PaletteColor(MonochromePalette[0]) == Black && PaletteColor(MonochromePalette[1]) == White
  {
  }

  /** 24 bits per pixel: the blue, green and red bytes of pixel (x, y), after any header block `hb`, are the input's channels. */
  lemma RgbReadBack(hb: seq<bv8>, data: seq<int>, width: nat, height: nat, x: nat, y: nat, start: nat)
    requires x < width && y < height
    requires start == |hb| + RowMajor(PaddedWidthBytes(width, 24), y, 0)
    ensures ReadRgb(hb + PixelData(data, width, height, 24), start + 3 * x) == Some(InputPixel(data, width, 24, x, y))
  {
    var idx := RgbIndex(width, x, y);
    RgbBytesAt(hb, data, width, height, x, y, start);
    SampleChannel(data, idx);
    SampleChannel(data, idx + 1);
    SampleChannel(data, idx + 2);
    RgbInputPixel(data, width, x, y);
  }

  /** One bit per pixel: the input colour of pixel (x, y) is white exactly when its element passes `IsWhite`. */
  lemma MonochromeInputPixel(data: seq<int>, width: nat, x: nat, y: nat)
    ensures InputPixel(data, width, 1, x, y) == if IsWhite(data, RowMajor(width, y, x)) then White else Black
  {
    RowMajorProduct(width, y, x);
  }

  /** 24 bits per pixel: the input colour of pixel (x, y) is the channels from element `idx` on. */
  lemma RgbInputPixel(data: seq<int>, width: nat, x: nat, y: nat)
    ensures var idx := RgbIndex(width, x, y);
      InputPixel(data, width, 24, x, y) == Rgb(Channel(data, idx), Channel(data, idx + 1), Channel(data, idx + 2))
  {
    RowMajorProduct(width, y, x);
  }

  /** The three bytes of 24-bit pixel (x, y) in the file: the input's elements `idx + 2`, `idx + 1`, `idx`. */
  lemma RgbBytesAt(hb: seq<bv8>, data: seq<int>, width: nat, height: nat, x: nat, y: nat, start: nat)
    requires x < width && y < height
    requires start == |hb| + RowMajor(PaddedWidthBytes(width, 24), y, 0)
    ensures var file := hb + PixelData(data, width, height, 24);
      var idx := RgbIndex(width, x, y);
      && start + 3 * x + 2 < |file|
      && file[start + 3 * x] == SampleByte(data, idx + 2)
      && file[start + 3 * x + 1] == SampleByte(data, idx + 1)
      && file[start + 3 * x + 2] == SampleByte(data, idx)
  {
    var stride := PaddedWidthBytes(width, 24);
    var pixels := PixelData(data, width, height, 24);
    var idx := RgbIndex(width, x, y);
    RgbPixelBytes(data, width, height, x, y);
    RgbBytesIn(hb, pixels, stride, x, y, start, SampleByte(data, idx + 2), SampleByte(data, idx + 1), SampleByte(data, idx));
  }

  /** Three consecutive bytes of row `y` of `pixels`, found in the file after the header block. */
  lemma RgbBytesIn(hb: seq<bv8>, pixels: seq<bv8>, stride: nat, x: nat, y: nat, start: nat, b0: bv8, b1: bv8, b2: bv8)
    requires start == |hb| + RowMajor(stride, y, 0)
    requires RowMajor(stride, y, 3 * x) < |pixels| && pixels[RowMajor(stride, y, 3 * x)] == b0
    requires RowMajor(stride, y, 3 * x + 1) < |pixels| && pixels[RowMajor(stride, y, 3 * x + 1)] == b1
    requires RowMajor(stride, y, 3 * x + 2) < |pixels| && pixels[RowMajor(stride, y, 3 * x + 2)] == b2
    ensures start + 3 * x + 2 < |hb + pixels|
    ensures (hb + pixels)[start + 3 * x] == b0
    ensures (hb + pixels)[start + 3 * x + 1] == b1
    ensures (hb + pixels)[start + 3 * x + 2] == b2
  {
    RgbChannelAt(hb, pixels, stride, y, x, 0, start + 3 * x);
    RgbChannelAt(hb, pixels, stride, y, x, 1, start + 3 * x + 1);
    RgbChannelAt(hb, pixels, stride, y, x, 2, start + 3 * x + 2);
  }

  /** Byte `3x + k` of row `y` of the pixel data, found in the file after the header block. */
  lemma RgbChannelAt(hb: seq<bv8>, pixels: seq<bv8>, stride: nat, y: nat, x: nat, k: nat, at: nat)
    requires RowMajor(stride, y, 3 * x + k) < |pixels|
    requires at == |hb| + RowMajor(stride, y, 0) + 3 * x + k
    ensures at < |hb + pixels| && (hb + pixels)[at] == pixels[RowMajor(stride, y, 3 * x + k)]
  {
    RowMajorOffset(stride, y, 3 * x + k);
    AppendIndex(hb, pixels, RowMajor(stride, y, 3 * x + k), at);
  }

  /** Index `k = |a| + i` of `a + b` is index `i` of `b`. */
  lemma AppendIndex<T>(a: seq<T>, b: seq<T>, i: nat, k: nat)
    requires i < |b| && k == |a| + i
    ensures k < |a + b| && (a + b)[k] == b[i]
  {
  }

  /** The byte the 24-bit encoder stores for an input element is that element's channel value. */
  lemma SampleChannel(data: seq<int>, i: nat)
    ensures Value(SampleByte(data, i)) == Channel(data, i)
  {
  }

  /** Reading the bit `7 - k` of a byte from its low end is testing the byte's `Mask(k)` bit. */
  lemma ShiftedBit(b: bv8, k: nat)
    requires k < 8
    ensures Bit(b, 7 - k) <==> IsSet(b, k)
  {
  }

  /** A pixel outside the image is not read from an encoded file. */
  lemma OutsidePixelUnread(data: seq<int>, width: nat, height: nat, bitsPerPixel: nat, x: nat, y: nat)
    requires IsSupported(bitsPerPixel) && FitsHeader(width, height, bitsPerPixel)
    requires x >= width || y >= height
    ensures ReadPixel(EncodedFile(data, width, height, bitsPerPixel), x, y) == None
  {
    EncodedHeader(data, width, height, bitsPerPixel);
  }
}
