/**
 * What the pixel data of an encoded image is, byte by byte: rows stored top-down, each
 * padded to the stride; a one-bit row packs eight pixels per byte, first pixel in the most
 * significant bit; a 24-bit row stores each pixel as blue, green, red.
 */
module PixelPacking {
  import opened Wrappers
  import opened Bytes
  import opened BmpLayout

  /** The bit that holds pixel `k` of an eight-pixel group, `1 << (7 - k)` (see MaskIsShift). */
  function Mask(k: nat): bv8
    requires k < 8
  {
    [0x80, 0x40, 0x20, 0x10, 0x08, 0x04, 0x02, 0x01][k]
  }

  lemma MaskIsShift(k: nat)
    requires k < 8
    ensures Mask(k) == (1 as bv8) << (7 - k)
  {
  }

  /** Whether bit `7 - k` of `b` is set, i.e. pixel `k` of the group `b` packs. */
  predicate IsSet(b: bv8, k: nat)
    requires k < 8
  {
    b & Mask(k) != 0
  }

  /** `imageData[i]`: the element, or `undefined` (None) when `i` is past the end of the input. */
  function Element(data: seq<int>, i: nat): Option<int>
  {
    if i < |data| then Some(data[i]) else None
  }

  /**
   * The one-bit encoder's test `pixel === 0xFF`. A read past the end of the input yields
   * `undefined`, which is not 0xFF, so such a pixel counts as black.
   */
  predicate IsWhite(data: seq<int>, i: nat)
  {
    Element(data, i) == Some(0xFF)
  }

  /**
   * What `imageData[i]` gives the two branches: within the input the element itself, tested
   * against 0xFF by the one-bit branch; past its end `undefined`, which is black for one bit
   * per pixel and stored as 0 for 24 bits.
   */
  lemma ElementRead(data: seq<int>, i: nat)
    ensures i < |data| ==> Element(data, i) == Some(data[i]) && (IsWhite(data, i) <==> data[i] == 0xFF)
    ensures i >= |data| ==> Element(data, i) == None && !IsWhite(data, i) && SampleByte(data, i) == 0
  {
  }

  /**
   * The byte a `Buffer` element keeps when the 24-bit encoder assigns input element `i` to
   * it: the element modulo 256, and 0 for `undefined` past the end of the input.
   */
  function SampleByte(data: seq<int>, i: nat): (b: bv8)
    ensures i < |data| && 0 <= data[i] < 256 ==> Value(b) == data[i]
    ensures i >= |data| ==> b == 0
  {
    if i < |data| then ToUint8(data[i]) else 0
  }

  function Min(a: nat, b: nat): nat
  {
    if a < b then a else b
  }

  /** An eight-pixel group packed into one byte, first pixel in bit 7; bits past the group stay 0. */
  function GroupByte(group: seq<bool>): bv8
    requires |group| <= 8
  {
    if group == [] then 0
    else GroupByte(group[..|group| - 1]) | (if group[|group| - 1] then Mask(|group| - 1) else 0)
  }

  /** Bit `7 - k` of a packed group is set exactly when pixel `k` exists and is white. */
  lemma {:induction false} GroupByteBits(group: seq<bool>, k: nat)
    requires |group| <= 8 && k < 8
    ensures IsSet(GroupByte(group), k) <==> k < |group| && group[k]
  {
    if group != [] {
      var n := |group| - 1;
      GroupByteBits(group[..n], k);
      MaskBits(n, k);
    }
  }

  /** Distinct pixel positions have distinct bits. */
  lemma MaskBits(j: nat, k: nat)
    requires j < 8 && k < 8
    ensures (Mask(j) & Mask(k) != 0) <==> j == k
  {
  }

  /** `currentByte |= mask` sets the pixel's bit and leaves every other bit of the byte as it was. */
  lemma SetBitFrame(b: bv8, j: nat, k: nat)
    requires j < 8 && k < 8
    ensures IsSet(b | Mask(j), k) <==> j == k || IsSet(b, k)
  {
    MaskBits(j, k);
  }

  /** `currentByte &= ~mask` clears the pixel's bit and leaves every other bit of the byte as it was. */
  lemma ClearBitFrame(b: bv8, j: nat, k: nat)
    requires j < 8 && k < 8
    ensures IsSet(b & !Mask(j), k) <==> j != k && IsSet(b, k)
  {
    MaskBits(j, k);
  }

  /** Clearing a bit that is already clear leaves the byte as it was. */
  lemma ClearUnsetBit(b: bv8, k: nat)
    requires k < 8 && !IsSet(b, k)
    ensures b & !Mask(k) == b
  {
  }

  /**
   * The position of element `x` of row `y` in a row-by-row buffer whose rows are `rowLength`
   * long: the `y` rows before it, then `x`. RowMajorProduct shows it is `y * rowLength + x`.
   */
  function RowMajor(rowLength: nat, y: nat, x: nat): nat
  {
    if y == 0 then x else rowLength + RowMajor(rowLength, y - 1, x)
  }

  lemma {:induction false} RowMajorProduct(rowLength: nat, y: nat, x: nat)
    ensures RowMajor(rowLength, y, x) == y * rowLength + x
  {
    if y > 0 {
      RowMajorProduct(rowLength, y - 1, x);
    }
  }

  /** Element `x` of row `y` lies `x` past the start of the row. */
  lemma {:induction false} RowMajorOffset(rowLength: nat, y: nat, x: nat)
    ensures RowMajor(rowLength, y, x) == RowMajor(rowLength, y, 0) + x
  {
    if y > 0 {
      RowMajorOffset(rowLength, y - 1, x);
    }
  }

  /** The white/black flags of row `y` of the input, one per pixel. */
  function RowPixels(data: seq<int>, width: nat, y: nat): (bits: seq<bool>)
    ensures |bits| == width
  {
    seq(width, x requires 0 <= x < width => IsWhite(data, RowMajor(width, y, x)))
  }

  /** Byte `c` of a packed row: the group of pixels `8c .. 8c+7` that exist, or 0 past the last one. */
  function PackedByte(bits: seq<bool>, c: nat): bv8
  {
    if 8 * c < |bits| then GroupByte(bits[8 * c .. Min(8 * c + 8, |bits|)]) else 0
  }

  /** A one-bit row of `stride` bytes. */
  function PackedRow(bits: seq<bool>, stride: nat): (r: seq<bv8>)
    ensures |r| == stride
  {
    seq(stride, c requires 0 <= c < stride => PackedByte(bits, c))
  }

  /** Byte `c < 3 * width` of a 24-bit row: blue, green, red of pixel `c / 3`, from input `(y*width + c/3)*3 + 2, +1, +0`. */
  function RgbByte(data: seq<int>, width: nat, y: nat, c: nat): bv8
    requires c < 3 * width
  {
    SampleByte(data, RgbIndex(width, c / 3, y) + 2 - c % 3)
  }

  /** `idx`, the index of the red element of pixel (x, y) in the three-elements-per-pixel input. */
  function RgbIndex(width: nat, x: nat, y: nat): nat
  {
    RowMajor(width, y, x) * 3
  }

  /** A 24-bit row of `stride` bytes: the pixels' bytes, then zero padding. */
  function RgbRow(data: seq<int>, width: nat, y: nat, stride: nat): (r: seq<bv8>)
    ensures |r| == stride
  {
    seq(stride, c requires 0 <= c < stride => if c < 3 * width then RgbByte(data, width, y, c) else 0)
  }

  /** Row `y` as it is stored, for either bit depth, `stride` bytes long. */
  function StoredRow(data: seq<int>, width: nat, bitsPerPixel: nat, stride: nat, y: nat): (r: seq<bv8>)
    ensures |r| == stride
  {
    if bitsPerPixel == 1 then PackedRow(RowPixels(data, width, y), stride) else RgbRow(data, width, y, stride)
  }

  /** The first `n` rows, top row first. */
  function StoredRows(data: seq<int>, width: nat, bitsPerPixel: nat, stride: nat, n: nat): (r: seq<bv8>)
    ensures |r| == RowMajor(stride, n, 0)
  {
    if n == 0 then []
    else StoredRows(data, width, bitsPerPixel, stride, n - 1) + StoredRow(data, width, bitsPerPixel, stride, n - 1)
  }

  /** The pixel data of a `width` x `height` image: `height` rows of the padded width. */
  function PixelData(data: seq<int>, width: nat, height: nat, bitsPerPixel: nat): (r: seq<bv8>)
    ensures |r| == PixelDataSize(width, height, bitsPerPixel)
  {
    RowMajorProduct(PaddedWidthBytes(width, bitsPerPixel), height, 0);
    StoredRows(data, width, bitsPerPixel, PaddedWidthBytes(width, bitsPerPixel), height)
  }

  /** Fewer rows are a prefix of more rows. */
  lemma {:induction false} StoredRowsPrefix(data: seq<int>, width: nat, bitsPerPixel: nat, stride: nat, m: nat, n: nat)
    requires m <= n
    ensures var short := StoredRows(data, width, bitsPerPixel, stride, m);
      var long := StoredRows(data, width, bitsPerPixel, stride, n);
      |short| <= |long| && long[..|short|] == short
  {
    if m < n {
      StoredRowsPrefix(data, width, bitsPerPixel, stride, m, n - 1);
      var long := StoredRows(data, width, bitsPerPixel, stride, n);
      var prev := StoredRows(data, width, bitsPerPixel, stride, n - 1);
      assert long[..|prev|] == prev;
    }
  }

  /** Byte `y * stride + c` of the stored rows is byte `c` of row `y`: row `y` starts `y` strides in. */
  lemma StoredRowsAt(data: seq<int>, width: nat, bitsPerPixel: nat, stride: nat, n: nat, y: nat, c: nat)
    requires y < n && c < stride
    ensures RowMajor(stride, y, c) < |StoredRows(data, width, bitsPerPixel, stride, n)|
    ensures StoredRows(data, width, bitsPerPixel, stride, n)[RowMajor(stride, y, c)]
         == StoredRow(data, width, bitsPerPixel, stride, y)[c]
  {
    StoredRowsLast(data, width, bitsPerPixel, stride, y, c);
    StoredRowsPrefixAt(data, width, bitsPerPixel, stride, y + 1, n, RowMajor(stride, y, c));
  }

  /** Byte `c` of row `y` is byte `y * stride + c` of the first `y + 1` rows. */
  lemma StoredRowsLast(data: seq<int>, width: nat, bitsPerPixel: nat, stride: nat, y: nat, c: nat)
    requires c < stride
    ensures RowMajor(stride, y, c) < |StoredRows(data, width, bitsPerPixel, stride, y + 1)|
    ensures StoredRows(data, width, bitsPerPixel, stride, y + 1)[RowMajor(stride, y, c)]
         == StoredRow(data, width, bitsPerPixel, stride, y)[c]
  {
    var before := StoredRows(data, width, bitsPerPixel, stride, y);
    var row := StoredRow(data, width, bitsPerPixel, stride, y);
    RowMajorOffset(stride, y, c);
    assert (before + row)[|before| + c] == row[c];
  }

  /** A byte of the first `m` rows is the same byte of the first `n >= m` rows. */
  lemma StoredRowsPrefixAt(data: seq<int>, width: nat, bitsPerPixel: nat, stride: nat, m: nat, n: nat, i: nat)
    requires m <= n && i < |StoredRows(data, width, bitsPerPixel, stride, m)|
    ensures i < |StoredRows(data, width, bitsPerPixel, stride, n)|
    ensures StoredRows(data, width, bitsPerPixel, stride, n)[i] == StoredRows(data, width, bitsPerPixel, stride, m)[i]
  {
    StoredRowsPrefix(data, width, bitsPerPixel, stride, m, n);
    var short := StoredRows(data, width, bitsPerPixel, stride, m);
    var long := StoredRows(data, width, bitsPerPixel, stride, n);
    assert long[..|short|][i] == long[i];
  }

  /** In a packed row, bit `7 - x % 8` of byte `x / 8` is set exactly when pixel `x` is white. */
  lemma PackedRowBit(bits: seq<bool>, stride: nat, x: nat)
    requires x < |bits| && x / 8 < stride
    ensures IsSet(PackedRow(bits, stride)[x / 8], x % 8) <==> bits[x]
  {
    var c, k := x / 8, x % 8;
    assert x == 8 * c + k && k < 8;
    var hi := Min(8 * c + 8, |bits|);
    assert x < hi;
    var group := bits[8 * c .. hi];
    assert group[k] == bits[8 * c + k];
    GroupByteBits(group, k);
  }

  /** In a packed row, a bit past the last pixel is clear. */
  lemma PackedRowUnused(bits: seq<bool>, stride: nat, c: nat, k: nat)
    requires c < stride && k < 8 && 8 * c + k >= |bits|
    ensures !IsSet(PackedRow(bits, stride)[c], k)
  {
    if 8 * c < |bits| {
      GroupByteBits(bits[8 * c .. Min(8 * c + 8, |bits|)], k);
    } else {
      assert PackedRow(bits, stride)[c] == 0;
    }
  }

  /** Pixel `x` of a row lies in byte `x / 8` for one bit per pixel and in bytes `3x .. 3x+2` for 24, within the stride. */
  lemma PixelByteInRow(width: nat, x: nat)
    requires x < width
    ensures x / 8 < RowBytes(width, 1) <= PaddedWidthBytes(width, 1)
    ensures 3 * x + 2 < 3 * width == RowBytes(width, 24) <= PaddedWidthBytes(width, 24)
  {
  }

  /**
   * One bit per pixel: pixel (x, y) occupies bit `7 - x % 8` of byte `y * stride + x / 8`,
   * and that bit is set exactly when the input value is 0xFF.
   */
  lemma MonochromePixelBit(data: seq<int>, width: nat, height: nat, x: nat, y: nat)
    requires x < width && y < height
    ensures var stride := PaddedWidthBytes(width, 1);
      && RowMajor(stride, y, x / 8) < |PixelData(data, width, height, 1)|
      && (IsSet(PixelData(data, width, height, 1)[RowMajor(stride, y, x / 8)], x % 8) <==> IsWhite(data, RowMajor(width, y, x)))
  {
    var stride := PaddedWidthBytes(width, 1);
    PixelByteInRow(width, x);
    StoredRowsAt(data, width, 1, stride, height, y, x / 8);
    PackedRowBit(RowPixels(data, width, y), stride, x);
  }

  /**
   * MonochromePixelBit with the positions written as the source computes them: bit `7 - x % 8`
   * of byte `y * paddedWidthBytes + x / 8` of the pixel data is set exactly when input element
   * `y * width + x` is 0xFF.
   */
  lemma MonochromePixelPositions(data: seq<int>, width: nat, height: nat, x: nat, y: nat, stride: nat, pixels: seq<bv8>)
    requires x < width && y < height
    requires stride == PaddedWidthBytes(width, 1) && pixels == PixelData(data, width, height, 1)
    ensures 0 <= y * stride + x / 8 < |pixels|
    ensures IsSet(pixels[y * stride + x / 8], x % 8) <==> IsWhite(data, y * width + x)
  {
    MonochromePixelBit(data, width, height, x, y);
    assert RowMajor(stride, y, x / 8) == y * stride + x / 8 by { RowMajorProduct(stride, y, x / 8); }
    assert RowMajor(width, y, x) == y * width + x by { RowMajorProduct(width, y, x); }
  }

  /**
   * One bit per pixel: every bit that stands for no pixel (column `8c + k >= width`) is 0;
   * this covers the low bits of a row's last, partial byte and all its padding bytes.
   */
  lemma MonochromeUnusedBitsClear(data: seq<int>, width: nat, height: nat, y: nat, c: nat, k: nat)
    requires y < height && c < PaddedWidthBytes(width, 1) && k < 8 && 8 * c + k >= width
    ensures var stride := PaddedWidthBytes(width, 1);
      && RowMajor(stride, y, c) == y * stride + c < |PixelData(data, width, height, 1)|
      && !IsSet(PixelData(data, width, height, 1)[RowMajor(stride, y, c)], k)
  {
    var stride := PaddedWidthBytes(width, 1);
    StoredRowsAt(data, width, 1, stride, height, y, c);
    PackedRowUnused(RowPixels(data, width, y), stride, c, k);
    RowMajorProduct(stride, y, c);
  }

  /** One bit per pixel: the padding bytes after the packed bytes of each row are 0. */
  lemma MonochromePaddingZero(data: seq<int>, width: nat, height: nat, y: nat, c: nat)
    requires y < height && RowBytes(width, 1) <= c < PaddedWidthBytes(width, 1)
    ensures var stride := PaddedWidthBytes(width, 1);
      && RowMajor(stride, y, c) == y * stride + c < |PixelData(data, width, height, 1)|
      && PixelData(data, width, height, 1)[RowMajor(stride, y, c)] == 0
  {
    var stride := PaddedWidthBytes(width, 1);
    StoredRowsAt(data, width, 1, stride, height, y, c);
    assert 8 * c >= width;
    RowMajorProduct(stride, y, c);
  }

  /**
   * 24 bits per pixel: pixel (x, y) is the three bytes from `y * stride + 3x`, in the order
   * blue, green, red, taken from input elements `idx + 2`, `idx + 1` and `idx`, where
   * `idx = 3(y * width + x)`.
   */
  lemma RgbPixelBytes(data: seq<int>, width: nat, height: nat, x: nat, y: nat)
    requires x < width && y < height
    ensures var stride := PaddedWidthBytes(width, 24);
      var pixels := PixelData(data, width, height, 24);
      && RowMajor(stride, y, 3 * x) < |pixels|
      && pixels[RowMajor(stride, y, 3 * x)] == SampleByte(data, RgbIndex(width, x, y) + 2)
      && RowMajor(stride, y, 3 * x + 1) < |pixels|
      && pixels[RowMajor(stride, y, 3 * x + 1)] == SampleByte(data, RgbIndex(width, x, y) + 1)
      && RowMajor(stride, y, 3 * x + 2) < |pixels|
      && pixels[RowMajor(stride, y, 3 * x + 2)] == SampleByte(data, RgbIndex(width, x, y))
  {
    PixelByteInRow(width, x);
    RgbRowsPixel(data, width, PaddedWidthBytes(width, 24), height, x, y);
  }

  /**
   * RgbPixelBytes with the positions written as the source computes them: bytes
   * `y * paddedWidthBytes + 3x`, `+1` and `+2` of the pixel data hold input elements
   * `idx + 2`, `idx + 1` and `idx`, where `idx = (y * width + x) * 3`.
   */
  lemma RgbPixelPositions(data: seq<int>, width: nat, height: nat, x: nat, y: nat, stride: nat, pixels: seq<bv8>, idx: nat)
    requires x < width && y < height
    requires stride == PaddedWidthBytes(width, 24) && pixels == PixelData(data, width, height, 24)
    requires idx == (y * width + x) * 3
    ensures 0 <= y * stride + 3 * x < y * stride + 3 * x + 2 < |pixels|
    ensures pixels[y * stride + 3 * x] == SampleByte(data, idx + 2)
    ensures pixels[y * stride + 3 * x + 1] == SampleByte(data, idx + 1)
    ensures pixels[y * stride + 3 * x + 2] == SampleByte(data, idx)
  {
    var at := y * stride + 3 * x;
    RgbPixelBytes(data, width, height, x, y);
    assert RowMajor(stride, y, 3 * x) == at by { RowMajorProduct(stride, y, 3 * x); }
    assert RowMajor(stride, y, 3 * x + 1) == at + 1 by { RowMajorProduct(stride, y, 3 * x + 1); }
    assert RowMajor(stride, y, 3 * x + 2) == at + 2 by { RowMajorProduct(stride, y, 3 * x + 2); }
    assert RgbIndex(width, x, y) == idx by { RowMajorProduct(width, y, x); }
  }

  /** RgbPixelBytes for any stride that has room for the row's pixels. */
  lemma RgbRowsPixel(data: seq<int>, width: nat, stride: nat, height: nat, x: nat, y: nat)
    requires x < width && y < height && 3 * width <= stride
    ensures var pixels := StoredRows(data, width, 24, stride, height);
      && RowMajor(stride, y, 3 * x) < |pixels|
      && pixels[RowMajor(stride, y, 3 * x)] == SampleByte(data, RgbIndex(width, x, y) + 2)
      && RowMajor(stride, y, 3 * x + 1) < |pixels|
      && pixels[RowMajor(stride, y, 3 * x + 1)] == SampleByte(data, RgbIndex(width, x, y) + 1)
      && RowMajor(stride, y, 3 * x + 2) < |pixels|
      && pixels[RowMajor(stride, y, 3 * x + 2)] == SampleByte(data, RgbIndex(width, x, y))
  {
    var idx := RgbIndex(width, x, y);
    RgbRowsChannel(data, width, stride, height, x, y, 0, 3 * x, idx + 2);
    RgbRowsChannel(data, width, stride, height, x, y, 1, 3 * x + 1, idx + 1);
    RgbRowsChannel(data, width, stride, height, x, y, 2, 3 * x + 2, idx);
  }

  /**
   * Byte `c = 3x + k` of row `y` in 24-bit rows is input element `i = idx + 2 - k`: the
   * blue, green and red elements of pixel (x, y) for `k` = 0, 1, 2.
   */
  lemma RgbRowsChannel(data: seq<int>, width: nat, stride: nat, height: nat, x: nat, y: nat, k: nat, c: nat, i: nat)
    requires x < width && y < height && 3 * width <= stride && k < 3
    requires c == 3 * x + k && i == RgbIndex(width, x, y) + 2 - k
    ensures RowMajor(stride, y, c) < |StoredRows(data, width, 24, stride, height)|
    ensures StoredRows(data, width, 24, stride, height)[RowMajor(stride, y, c)] == SampleByte(data, i)
  {
    StoredRowsAt(data, width, 24, stride, height, y, c);
    RgbRowChannel(data, width, y, stride, x, k, c, i);
  }

  /** Byte `c = 3x + k` of a 24-bit row is input element `i = idx + 2 - k`. */
  lemma RgbRowChannel(data: seq<int>, width: nat, y: nat, stride: nat, x: nat, k: nat, c: nat, i: nat)
    requires x < width && 3 * width <= stride && k < 3
    requires c == 3 * x + k && i == RgbIndex(width, x, y) + 2 - k
    ensures c < stride && RgbRow(data, width, y, stride)[c] == SampleByte(data, i)
  {
    assert c / 3 == x && c % 3 == k;
  }

  /** 24 bits per pixel: the `padding` bytes that end each row are 0. */
  lemma RgbPaddingZero(data: seq<int>, width: nat, height: nat, y: nat, c: nat)
    requires y < height && 3 * width <= c < PaddedWidthBytes(width, 24)
    ensures var stride := PaddedWidthBytes(width, 24);
      && RowMajor(stride, y, c) == y * stride + c < |PixelData(data, width, height, 24)|
      && PixelData(data, width, height, 24)[RowMajor(stride, y, c)] == 0
  {
    StoredRowsAt(data, width, 24, PaddedWidthBytes(width, 24), height, y, c);
    RowMajorProduct(PaddedWidthBytes(width, 24), y, c);
  }

  /** A row with no pixels packed yet is all zero, as the freshly allocated buffer is. */
  lemma PackedRowEmpty(stride: nat)
    ensures PackedRow([], stride) == Zeros(stride)
  {
  }

  /**
   * One pass of the one-bit loop body: packing one more pixel changes only the byte of its
   * group, which becomes that byte with the pixel's bit set (white) or cleared (otherwise).
   */
  lemma PackedRowAppend(bits: seq<bool>, white: bool, stride: nat, c: nat, k: nat)
    requires |bits| == 8 * c + k && k < 8 && c < stride
    ensures var row := PackedRow(bits, stride);
      PackedRow(bits + [white], stride) == row[c := if white then row[c] | Mask(k) else row[c] & !Mask(k)]
  {
    PackedRowAfterAppend(bits, white, stride, c, k);
  }

  /** `PackedRowAppend` byte by byte. */
  lemma PackedRowAfterAppend(bits: seq<bool>, white: bool, stride: nat, c: nat, k: nat)
    requires |bits| == 8 * c + k && k < 8 && c < stride
    ensures var row := PackedRow(bits, stride);
      var v := if white then row[c] | Mask(k) else row[c] & !Mask(k);
      forall j :: 0 <= j < stride ==> PackedRow(bits + [white], stride)[j] == row[c := v][j]
  {
    var row := PackedRow(bits, stride);
    forall j | 0 <= j < stride
      ensures PackedRow(bits + [white], stride)[j] == row[c := if white then row[c] | Mask(k) else row[c] & !Mask(k)][j]
    {
      PackedByteAfterAppend(bits, white, c, k, j);
    }
  }

  /** Byte `j` of the packed pixels after one more pixel joins group `c` at bit position `k`. */
  lemma PackedByteAfterAppend(bits: seq<bool>, white: bool, c: nat, k: nat, j: nat)
    requires |bits| == 8 * c + k && k < 8
    ensures var b := PackedByte(bits, j);
      PackedByte(bits + [white], j) == if j != c then b else if white then b | Mask(k) else b & !Mask(k)
  {
    if j == c {
      PackedByteAppend(bits, white, c, k);
    } else {
      PackedByteFrame(bits, white, j, c);
    }
  }

  /** The byte of the group the new pixel joins gains that pixel's bit. */
  lemma PackedByteAppend(bits: seq<bool>, white: bool, c: nat, k: nat)
    requires |bits| == 8 * c + k && k < 8
    ensures var b := PackedByte(bits, c);
      PackedByte(bits + [white], c) == if white then b | Mask(k) else b & !Mask(k)
  {
    var group := bits[8 * c..];
    PackedByteOpenGroup(bits, c);
    PackedByteOpenGroup(bits + [white], c);
    assert (bits + [white])[8 * c..] == group + [white];
    GroupByteAppend(group, white, k);
  }

  /** The byte of the group the next pixel joins holds the pixels of that group so far. */
  lemma PackedByteOpenGroup(bits: seq<bool>, c: nat)
    requires 8 * c <= |bits| <= 8 * c + 8
    ensures PackedByte(bits, c) == GroupByte(bits[8 * c..])
  {
    if 8 * c < |bits| {
      assert Min(8 * c + 8, |bits|) == |bits|;
      assert bits[8 * c..|bits|] == bits[8 * c..];
    } else {
      assert bits[8 * c..] == [];
    }
  }

  /** Adding a pixel to a group sets its bit (white) or clears it (otherwise), which it already is. */
  lemma GroupByteAppend(group: seq<bool>, white: bool, k: nat)
    requires |group| == k < 8
    ensures GroupByte(group + [white])
         == if white then GroupByte(group) | Mask(k) else GroupByte(group) & !Mask(k)
  {
    GroupByteUnfold(group, white);
    if !white {
      GroupByteBits(group, k);
    }
    JoinBit(GroupByte(group), white, k);
  }

  /** One unfolding of `GroupByte` on a group one pixel longer. */
  lemma GroupByteUnfold(group: seq<bool>, white: bool)
    requires |group| < 8
    ensures GroupByte(group + [white]) == GroupByte(group) | (if white then Mask(|group|) else 0)
  {
    var longer := group + [white];
    assert longer[..|group|] == group && longer[|group|] == white;
  }

  /** Or-ing in a pixel's mask, or nothing, sets its bit or keeps the already clear bit clear. */
  lemma JoinBit(b: bv8, white: bool, k: nat)
    requires k < 8 && (white || !IsSet(b, k))
    ensures b | (if white then Mask(k) else 0) == if white then b | Mask(k) else b & !Mask(k)
  {
    if !white {
      ClearUnsetBit(b, k);
      OrZero(b);
    }
  }

  lemma OrZero(b: bv8)
    ensures b | 0 == b
  {
  }

  /** Adding a pixel leaves the bytes of every other group as they were. */
  lemma PackedByteFrame(bits: seq<bool>, white: bool, j: nat, c: nat)
    requires 8 * c <= |bits| < 8 * c + 8 && j != c
    ensures PackedByte(bits + [white], j) == PackedByte(bits, j)
  {
    if j < c {
      assert Min(8 * j + 8, |bits| + 1) == 8 * j + 8 == Min(8 * j + 8, |bits|);
      assert (bits + [white])[8 * j .. 8 * j + 8] == bits[8 * j .. 8 * j + 8];
    }
  }
}
