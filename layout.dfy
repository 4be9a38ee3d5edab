/**
 * The arithmetic the encoder fixes at construction time: how many bytes a row of pixels
 * takes, how much zero padding brings it to a multiple of four, the size of the header
 * block, and the header record the encoder fills in.
 */
module BmpLayout {
  import opened Bytes
  import opened BmpHeader

  /** The bit depths the encoder accepts: one-bit monochrome and 24-bit RGB. */
  const SupportedBitsPerPixel: seq<int> := [1, 24]

  /** `supportedBitsPerPixel.includes(bitsPerPixel)`: exactly the depths 1 and 24. */
  predicate IsSupported(bitsPerPixel: int): (supported: bool)
    ensures supported <==> bitsPerPixel == 1 || bitsPerPixel == 24
  {
    bitsPerPixel in SupportedBitsPerPixel
  }

  /** `Math.ceil(width * bitsPerPixel / 8)`: the bytes that hold one row's pixels. */
  function RowBytes(width: nat, bitsPerPixel: nat): (n: nat)
    ensures 8 * n >= width * bitsPerPixel
    ensures 8 * n < width * bitsPerPixel + 8
  {
    (width * bitsPerPixel + 7) / 8
  }

  /** `(4 - rowBytes % 4) % 4`: the fewest zero bytes that make a row a multiple of four long. */
  function PaddingFor(rowBytes: nat): (p: nat)
    ensures p < 4
    ensures (rowBytes + p) % 4 == 0
  {
    (4 - rowBytes % 4) % 4
  }

  /** `rowBytes + padding`: the length of one stored row, padding included. */
  function PaddedWidthBytes(width: nat, bitsPerPixel: nat): (n: nat)
  {
    RowBytes(width, bitsPerPixel) + PaddingFor(RowBytes(width, bitsPerPixel))
  }

  /** The stored row is the shortest multiple of four bytes that holds the row's bytes. */
  lemma PaddedWidthBounds(width: nat, bitsPerPixel: nat)
    ensures var n := PaddedWidthBytes(width, bitsPerPixel);
      && RowBytes(width, bitsPerPixel) <= n < RowBytes(width, bitsPerPixel) + 4
      && n % 4 == 0
      && forall m: nat :: RowBytes(width, bitsPerPixel) <= m < n ==> m % 4 != 0
  {
  }

  /**
   * The stored row length is the standard DIB stride: the row's bits rounded up to whole
   * 32-bit words, `((bitsPerPixel * width + 31) / 32) * 4` bytes.
   */
  lemma PaddedWidthIsStride(width: nat, bitsPerPixel: nat)
    ensures PaddedWidthBytes(width, bitsPerPixel) == (bitsPerPixel * width + 31) / 32 * 4
    ensures PaddedWidthBytes(width, bitsPerPixel) % 4 == 0
  {
    var n := width * bitsPerPixel;
    assert bitsPerPixel * width == n;
    var a, b := n / 32, n % 32;
    var c := (b + 7) / 8;
    assert RowBytes(width, bitsPerPixel) == 4 * a + c by {
      assert n + 7 == 8 * (4 * a) + (b + 7);
    }
    RoundUpToWords(a, b, c);
  }

  /** With `n = 32a + b`, rounding the row's `ceil(n / 8)` bytes up to whole words gives `ceil(n / 32)` words. */
  lemma RoundUpToWords(a: nat, b: nat, c: nat)
    requires b < 32 && c == (b + 7) / 8
    ensures 4 * a + c + PaddingFor(4 * a + c) == (32 * a + b + 31) / 32 * 4
  {
    assert (4 * a + c) % 4 == c % 4;
    assert (32 * a + b + 31) / 32 == a + (b + 31) / 32;
  }

  /** 14-byte file header, 40-byte information header, and for one bit per pixel a two-entry colour table. */
  function HeaderSize(bitsPerPixel: int): (n: nat)
    ensures n == FileHeaderSize + InfoHeaderSize + (if bitsPerPixel == 1 then 4 * |MonochromePalette| else 0)
  {
    if bitsPerPixel == 1 then 62 else 54
  }

  /** The length of the pixel data: `height` padded rows. */
  function PixelDataSize(width: nat, height: nat, bitsPerPixel: nat): nat
  {
    height * PaddedWidthBytes(width, bitsPerPixel)
  }

  /** `headerSize + height * paddedWidthBytes`: the header block, then whole 32-bit words of pixel data. */
  function FileSize(width: nat, height: nat, bitsPerPixel: nat): (n: nat)
    ensures n >= HeaderSize(bitsPerPixel)
    ensures (n - HeaderSize(bitsPerPixel)) % 4 == 0
  {
    var stride := PaddedWidthBytes(width, bitsPerPixel);
    assert height * stride == 4 * (height * (stride / 4));
    HeaderSize(bitsPerPixel) + PixelDataSize(width, height, bitsPerPixel)
  }

  /**
   * The image-size field as bmp.js:43 computes it, `width * height * (bitsPerPixel / 8)`,
   * truncated to an integer by the 32-bit write. It leaves out the row padding, so it is
   * in general smaller than the pixel data that follows the header (see ImageSizeBelowData).
   */
  function ImageSizeField(width: nat, height: nat, bitsPerPixel: nat): (n: nat)
    ensures 8 * n <= width * height * bitsPerPixel < 8 * n + 8
  {
    width * height * bitsPerPixel / 8
  }

  /**
   * Every header field fits the integer the Buffer write takes: `width` and `-height` as
   * signed 32-bit values, the file size as an unsigned 32-bit value.
   */
  predicate FitsHeader(width: nat, height: nat, bitsPerPixel: nat)
  {
    width < TWO_31 && height <= TWO_31 && FileSize(width, height, bitsPerPixel) < TWO_32
  }

  /** The palette of a one-bit image: index 0 black, index 1 white (0x00RRGGBB). */
  const MonochromePalette: seq<nat> := [0x00000000, 0x00FFFFFF]

  /** The field values bmp.js:25-53 writes. */
  function EncoderHeader(width: nat, height: nat, bitsPerPixel: nat): (h: Header)
    requires IsSupported(bitsPerPixel) && FitsHeader(width, height, bitsPerPixel)
    ensures Representable(h)
  {
    ImageSizeBelowData(width, height, bitsPerPixel);
    var colors := if bitsPerPixel == 1 then 2 else 0;
    Header(
      FileSize(width, height, bitsPerPixel), HeaderSize(bitsPerPixel),
      width, -(height as int), 1, bitsPerPixel, 0, ImageSizeField(width, height, bitsPerPixel),
      0, 0, colors, colors,
      if bitsPerPixel == 1 then MonochromePalette else [])
  }

  /** The header block is exactly as long as the pixel-data offset it announces. */
  lemma HeaderBlockSize(width: nat, height: nat, bitsPerPixel: nat)
    requires IsSupported(bitsPerPixel) && FitsHeader(width, height, bitsPerPixel)
    ensures |HeaderBytes(EncoderHeader(width, height, bitsPerPixel))| == HeaderSize(bitsPerPixel)
  {
  }

  /**
   * The image-size field never exceeds the pixel data, so it fits whenever the file size does;
   * it falls short of it whenever a row is padded, e.g. by one byte for a 1x1 24-bit image.
   */
  lemma ImageSizeBelowData(width: nat, height: nat, bitsPerPixel: nat)
    ensures ImageSizeField(width, height, bitsPerPixel) <= PixelDataSize(width, height, bitsPerPixel)
  {
    var n := width * bitsPerPixel;
    var pwb := PaddedWidthBytes(width, bitsPerPixel);
    assert width * height * bitsPerPixel == height * n;
    assert 8 * pwb >= n;
    MulMonotonic(height, 8 * pwb, n);
    assert 8 * (height * pwb) >= height * n;
  }

  lemma MulMonotonic(k: nat, a: nat, b: nat)
    requires a >= b
    ensures k * a >= k * b
  {
  }

  /** The two concrete cases where the field and the pixel data differ. */
  lemma ImageSizeFieldIsNotDataSize()
    ensures ImageSizeField(1, 1, 24) == 3 && PixelDataSize(1, 1, 24) == 4
    ensures ImageSizeField(9, 1, 1) == 1 && PixelDataSize(9, 1, 1) == 4
  {
  }
}
