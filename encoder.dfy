/**
 * The encoder itself: a `BmpEncoder` is built for one image geometry and bit depth, and
 * turns a flat array of pixel values into the bytes of a top-down Windows bitmap file.
 */
module Bmp {
  import opened Wrappers
  import opened Bytes
  import opened BmpHeader
  import opened BmpLayout
  import opened PixelPacking

  /** The error the constructor throws for a bit depth it does not support. */
  datatype EncoderError = UnsupportedBitsPerPixel(bitsPerPixel: int, supported: seq<int>)

  /** The bytes `encode` returns: the header block followed by the pixel data. */
  function EncodedFile(data: seq<int>, width: nat, height: nat, bitsPerPixel: nat): (file: seq<bv8>)
    requires IsSupported(bitsPerPixel) && FitsHeader(width, height, bitsPerPixel)
    ensures |file| == FileSize(width, height, bitsPerPixel)
  {
    HeaderBytes(EncoderHeader(width, height, bitsPerPixel)) + PixelData(data, width, height, bitsPerPixel)
  }

  class BmpEncoder {
    const width: nat
    const height: nat
    const bitsPerPixel: nat
    /** The zero bytes that end each row. */
    const padding: nat
    /** The stored length of each row, padding included. */
    const paddedWidthBytes: nat

    /** The row layout the constructor computes, for a supported bit depth. */
    ghost predicate Valid()
    {
      && IsSupported(bitsPerPixel)
      && padding == PaddingFor(RowBytes(width, bitsPerPixel))
      && paddedWidthBytes == PaddedWidthBytes(width, bitsPerPixel)
    }

    /** The constructor for a depth that passes the check; `Create` models the check itself. */
    constructor(width: nat, height: nat, bitsPerPixel: nat)
      requires IsSupported(bitsPerPixel)
      ensures this.width == width && this.height == height && this.bitsPerPixel == bitsPerPixel
      ensures Valid()
      ensures padding < 4 && paddedWidthBytes == RowBytes(width, bitsPerPixel) + padding
      ensures paddedWidthBytes % 4 == 0
    {
      this.width := width;
      this.height := height;
      this.bitsPerPixel := bitsPerPixel;
      var rowBytes := (width * bitsPerPixel + 7) / 8;
      var padding := (4 - rowBytes % 4) % 4;
      this.padding := padding;
      paddedWidthBytes := rowBytes + padding;
      PaddedWidthIsStride(width, bitsPerPixel);
    }

    /** `new BMPEncoder(width, height, bitsPerPixel)`: throws unless the depth is 1 or 24. */
    static method Create(width: nat, height: nat, bitsPerPixel: int) returns (r: Result<BmpEncoder, EncoderError>)
      ensures r.Failure? <==> bitsPerPixel != 1 && bitsPerPixel != 24
      ensures r.Failure? ==> r.error == UnsupportedBitsPerPixel(bitsPerPixel, [1, 24])
      ensures r.Success? ==> && fresh(r.value) && r.value.Valid()
                             && r.value.width == width && r.value.height == height
                             && r.value.bitsPerPixel == bitsPerPixel
    {
      if bitsPerPixel !in SupportedBitsPerPixel {
        return Failure(UnsupportedBitsPerPixel(bitsPerPixel, SupportedBitsPerPixel));
      }
      var encoder := new BmpEncoder(width, height, bitsPerPixel);
      return Success(encoder);
    }

    /** `encode(data)`: the header block, then the pixel data, in one buffer. */
    method Encode(data: seq<int>) returns (file: seq<bv8>)
      requires Valid() && FitsHeader(width, height, bitsPerPixel)
      ensures file == EncodedFile(data, width, height, bitsPerPixel)
    {
      var header := CreateHeader();
      var pixelData := CreatePixelData(data);
      file := header[..] + pixelData[..];
    }

    /** `createHeader()`: both headers, and for one bit per pixel the black/white colour table. */
    method CreateHeader() returns (header: array<bv8>)
      requires Valid() && FitsHeader(width, height, bitsPerPixel)
      ensures fresh(header)
      ensures header[..] == HeaderBytes(EncoderHeader(width, height, bitsPerPixel))
    {
      var headerSize := if bitsPerPixel == 1 then 62 else 54;
      var fileSize := headerSize + height * paddedWidthBytes;
      assert headerSize == HeaderSize(bitsPerPixel) && fileSize == FileSize(width, height, bitsPerPixel);
      header := new bv8[headerSize](_ => 0);
      assert header[..] == Zeros(headerSize);
      var imageSize := width * height * bitsPerPixel / 8;
      assert imageSize == ImageSizeField(width, height, bitsPerPixel);
      ImageSizeBelowData(width, height, bitsPerPixel);
      var colors := if bitsPerPixel == 1 then 2 else 0;
      ghost var h := EncoderHeader(width, height, bitsPerPixel);
      ghost var fixed := FixedBytes(h);
      WriteFixedFields(header, h, fileSize, headerSize, width, -(height as int), bitsPerPixel, imageSize, colors);
      if bitsPerPixel == 1 {
        AppendUInt32LE(header, fixed, 0x00000000, 54);  // black
        AppendUInt32LE(header, fixed + UInt32LE(0x00000000), 0x00FFFFFF, 58);  // white
        MonochromePaletteBytes(fixed);
      } else {
        assert header[..] == fixed + PaletteBytes([]);
      }
    }

    /**
     * `createPixelData(imageData)`: a zero-filled buffer of `height` rows of
     * `paddedWidthBytes`, filled row by row from the top.
     */
    method CreatePixelData(data: seq<int>) returns (pixelData: array<bv8>)
      requires Valid()
      ensures fresh(pixelData)
      ensures pixelData[..] == PixelData(data, width, height, bitsPerPixel)
    {
      RowMajorProduct(paddedWidthBytes, height, 0);
      pixelData := new bv8[height * paddedWidthBytes](_ => 0);
      assert pixelData[..] == Zeros(pixelData.Length);
      if bitsPerPixel == 1 {
        PackRows(pixelData, data, width, height, paddedWidthBytes);
      } else if bitsPerPixel == 24 {
        RgbRowBytes(width);
        StoreRgbRows(pixelData, data, width, height, paddedWidthBytes, padding);
      }
    }
  }

  /** The one-bit branch of `createPixelData`: the outer loop, one row at a time. */
  method PackRows(pixelData: array<bv8>, data: seq<int>, width: nat, height: nat, paddedWidthBytes: nat)
    requires RowBytes(width, 1) <= paddedWidthBytes
    requires pixelData.Length == RowMajor(paddedWidthBytes, height, 0)
    requires pixelData[..] == Zeros(pixelData.Length)
    modifies pixelData
    ensures pixelData[..] == StoredRows(data, width, 1, paddedWidthBytes, height)
  {
    ghost var stride := paddedWidthBytes;
    assert pixelData[..] == StoredRows(data, width, 1, stride, 0) + Zeros(pixelData.Length - RowMajor(stride, 0, 0));
    for y := 0 to height
      invariant RowMajor(stride, y, 0) <= pixelData.Length
      invariant pixelData[..] == StoredRows(data, width, 1, stride, y) + Zeros(pixelData.Length - RowMajor(stride, y, 0))
    {
      RowMajorWithin(stride, y, height);
      MonochromeRowStart(StoredRows(data, width, 1, stride, y), stride,
                         pixelData.Length - RowMajor(stride, y + 1, 0), pixelData.Length - RowMajor(stride, y, 0));
      PackRow(pixelData, data, width, paddedWidthBytes, y);
    }
  }

  /**
   * The inner loop of the one-bit branch over row `y`: the bit `7 - x % 8` of byte
   * `y * paddedWidthBytes + x / 8` is set when input value `y * width + x` is 0xFF and
   * cleared otherwise, leaving the other bits of the byte as they were.
   */
  method PackRow(pixelData: array<bv8>, data: seq<int>, width: nat, paddedWidthBytes: nat, y: nat)
    requires RowBytes(width, 1) <= paddedWidthBytes
    requires RowMajor(paddedWidthBytes, y + 1, 0) <= pixelData.Length
    requires pixelData[..] == StoredRows(data, width, 1, paddedWidthBytes, y)
                              + PackedRow([], paddedWidthBytes)
                              + Zeros(pixelData.Length - RowMajor(paddedWidthBytes, y + 1, 0))
    modifies pixelData
    ensures pixelData[..] == StoredRows(data, width, 1, paddedWidthBytes, y + 1)
                             + Zeros(pixelData.Length - RowMajor(paddedWidthBytes, y + 1, 0))
  {
    ghost var stride := paddedWidthBytes;
    ghost var before := StoredRows(data, width, 1, stride, y);
    ghost var rest := Zeros(pixelData.Length - RowMajor(stride, y + 1, 0));
    ghost var pixels := RowPixels(data, width, y);
    for x := 0 to width
      invariant pixelData[..] == before + PackedRow(pixels[..x], stride) + rest
    {
      RowMajorProduct(width, y, x);
      var pixel := Element(data, y * width + x);
      var byteIndex := y * paddedWidthBytes + x / 8;
      var bitIndex := x % 8;
      assert pixel == Some(0xFF) <==> pixels[x];
      assert byteIndex == |before| + x / 8 by {
        RowMajorProduct(stride, y, 0);
      }
      var mask := Mask(bitIndex);  // 1 << (7 - bitIndex), by MaskIsShift
      var currentByte := pixelData[byteIndex];
      if pixel == Some(0xFF) {
        currentByte := currentByte | mask;
      } else {
        currentByte := currentByte & !mask;
      }
      MonochromeStep(before, pixels, rest, stride, x, byteIndex, currentByte);
      pixelData[byteIndex] := currentByte;
    }
    assert pixels[..width] == pixels;
  }

  /** The 24-bit branch of `createPixelData`: the outer loop, one row at a time, with a running offset. */
  method StoreRgbRows(pixelData: array<bv8>, data: seq<int>, width: nat, height: nat, paddedWidthBytes: nat, padding: nat)
    requires 3 * width + padding == paddedWidthBytes
    requires pixelData.Length == RowMajor(paddedWidthBytes, height, 0)
    requires pixelData[..] == Zeros(pixelData.Length)
    modifies pixelData
    ensures pixelData[..] == StoredRows(data, width, 24, paddedWidthBytes, height)
  {
    ghost var stride := paddedWidthBytes;
    var offset := 0;
    assert pixelData[..] == StoredRows(data, width, 24, stride, 0) + Zeros(pixelData.Length - offset);
    for y := 0 to height
      invariant offset == RowMajor(stride, y, 0) <= pixelData.Length
      invariant pixelData[..] == StoredRows(data, width, 24, stride, y) + Zeros(pixelData.Length - offset)
    {
      RowMajorWithin(stride, y, height);
      offset := StoreRgbRow(pixelData, data, width, paddedWidthBytes, padding, y, offset);
    }
  }

  /**
   * The body of the 24-bit outer loop for row `y`: blue, green and red of each pixel, taken
   * from input elements `idx + 2`, `idx + 1` and `idx` with `idx = (y * width + x) * 3`,
   * then the row's zero padding, each at the running offset.
   */
  method StoreRgbRow(pixelData: array<bv8>, data: seq<int>, width: nat, paddedWidthBytes: nat, padding: nat,
                     y: nat, offset: nat) returns (next: nat)
    requires 3 * width + padding == paddedWidthBytes
    requires offset == RowMajor(paddedWidthBytes, y, 0)
    requires RowMajor(paddedWidthBytes, y + 1, 0) <= pixelData.Length
    requires pixelData[..] == StoredRows(data, width, 24, paddedWidthBytes, y) + Zeros(pixelData.Length - offset)
    modifies pixelData
    ensures next == RowMajor(paddedWidthBytes, y + 1, 0) == (y + 1) * paddedWidthBytes
    ensures pixelData[..] == StoredRows(data, width, 24, paddedWidthBytes, y + 1) + Zeros(pixelData.Length - next)
  {
    ghost var stride := paddedWidthBytes;
    ghost var before := StoredRows(data, width, 24, stride, y);
    ghost var row := RgbRow(data, width, y, stride);
    next := offset;
    assert pixelData[..] == before + row[..0] + Zeros(pixelData.Length - next);
    for x := 0 to width
      invariant next == |before| + 3 * x
      invariant pixelData[..] == before + row[..3 * x] + Zeros(pixelData.Length - next)
    {
      var idx := (y * width + x) * 3;
      assert idx == RgbIndex(width, x, y) by {
        RowMajorProduct(width, y, x);
      }
      RgbRowChannel(data, width, y, stride, x, 0, 3 * x, idx + 2);
      RgbRowChannel(data, width, y, stride, x, 1, 3 * x + 1, idx + 1);
      RgbRowChannel(data, width, y, stride, x, 2, 3 * x + 2, idx);
      next := PutByte(pixelData, before, row, 3 * x, next, SampleByte(data, idx + 2));      // b
      next := PutByte(pixelData, before, row, 3 * x + 1, next, SampleByte(data, idx + 1));  // g
      next := PutByte(pixelData, before, row, 3 * x + 2, next, SampleByte(data, idx));      // r
    }
    for p := 0 to padding
      invariant next == |before| + 3 * width + p
      invariant pixelData[..] == before + row[..3 * width + p] + Zeros(pixelData.Length - next)
    {
      next := PutByte(pixelData, before, row, 3 * width + p, next, 0);
    }
    assert row[..3 * width + padding] == row;
    RowMajorProduct(stride, y + 1, 0);
  }

  /**
   * The field writes of `createHeader`, in its order, into the zero-filled header buffer:
   * the file header, then the information header.
   */
  method WriteFixedFields(header: array<bv8>, ghost h: Header, fileSize: nat, headerSize: nat, width: int, height: int,
                          bitsPerPixel: nat, imageSize: nat, colors: nat)
    requires Representable(h)
    requires && h.fileSize == fileSize && h.dataOffset == headerSize && h.width == width && h.height == height
             && h.planes == 1 && h.bitsPerPixel == bitsPerPixel && h.compression == 0 && h.imageSize == imageSize
             && h.xPixelsPerMeter == 0 && h.yPixelsPerMeter == 0 && h.colorsUsed == colors && h.colorsImportant == colors
    requires header.Length == headerSize >= FileHeaderSize + InfoHeaderSize
    requires header[..] == Zeros(headerSize)
    modifies header
    ensures header[..] == FixedBytes(h) + Zeros(header.Length - |FixedBytes(h)|)
  {
    ghost var empty: seq<bv8> := [];
    assert header[..] == empty + Zeros(header.Length - |empty|);
    AppendAscii(header, empty, Signature, 0);  // "BM"
    assert empty + Signature == Signature;
    ghost var done := Signature;
    AppendUInt32LE(header, done, fileSize, 2);
    done := done + UInt32LE(fileSize);
    AppendUInt32LE(header, done, 0, 6);  // reserved
    done := done + UInt32LE(0);
    AppendUInt32LE(header, done, headerSize, 10);  // pixel-data offset
    done := done + UInt32LE(headerSize);
    AppendUInt32LE(header, done, 40, 14);  // information-header size
    done := done + UInt32LE(40);
    AppendInt32LE(header, done, width, 18);
    done := done + Int32LE(width);
    AppendInt32LE(header, done, height, 22);
    done := done + Int32LE(height);
    AppendUInt16LE(header, done, 1, 26);  // planes
    done := done + UInt16LE(1);
    AppendUInt16LE(header, done, bitsPerPixel, 28);
    done := done + UInt16LE(bitsPerPixel);
    AppendUInt32LE(header, done, 0, 30);  // no compression
    done := done + UInt32LE(0);
    AppendUInt32LE(header, done, imageSize, 34);
    done := done + UInt32LE(imageSize);
    AppendInt32LE(header, done, 0, 38);  // horizontal resolution
    done := done + Int32LE(0);
    AppendInt32LE(header, done, 0, 42);  // vertical resolution
    done := done + Int32LE(0);
    AppendUInt32LE(header, done, colors, 46);
    done := done + UInt32LE(colors);
    AppendUInt32LE(header, done, colors, 50);
    assert done + UInt32LE(colors) == FixedBytes(h);
  }

  /** The one-bit colour table: black, then white. */
  lemma MonochromePaletteBytes(fixed: seq<bv8>)
    ensures fixed + PaletteBytes(MonochromePalette) == fixed + UInt32LE(0x00000000) + UInt32LE(0x00FFFFFF)
  {
    var black, white := UInt32LE(0x00000000), UInt32LE(0x00FFFFFF);
    assert MonochromePalette[..1] == [0x00000000] && [0x00000000][..0] == [];
    assert PaletteBytes([0x00000000]) == [] + black;
    assert PaletteBytes(MonochromePalette) == black + white by {
      assert [] + black == black;
    }
    assert fixed + (black + white) == fixed + black + white;
  }

  /** Row `y + 1` ends no later than row `n` starts, for `y < n`. */
  lemma {:induction false} RowMajorWithin(rowLength: nat, y: nat, n: nat)
    requires y < n
    ensures RowMajor(rowLength, y + 1, 0) <= RowMajor(rowLength, n, 0)
  {
    if y + 1 < n {
      RowMajorWithin(rowLength, y, n - 1);
    }
  }

  /** A 24-bit row's pixels take exactly three bytes each. */
  lemma RgbRowBytes(width: nat)
    ensures RowBytes(width, 24) == 3 * width
  {
  }

  /** Before the first pixel of a one-bit row, the row is all zero. */
  lemma MonochromeRowStart(before: seq<bv8>, stride: nat, n: nat, m: nat)
    requires m == stride + n
    ensures before + PackedRow([], stride) + Zeros(n) == before + Zeros(m)
  {
    PackedRowEmpty(stride);
    ZerosAppend(stride, n);
  }

  /**
   * One pass of the one-bit inner loop, on the buffer's contents: storing byte `v` at index
   * `i`, the byte of pixel `x` read back with that pixel's bit set (white) or cleared, packs
   * one more pixel of the row.
   */
  lemma MonochromeStep(before: seq<bv8>, pixels: seq<bool>, rest: seq<bv8>, stride: nat, x: nat, i: nat, v: bv8)
    requires x < |pixels| && 8 * stride >= |pixels| && i == |before| + x / 8
    requires var b := (before + PackedRow(pixels[..x], stride) + rest)[i];
      v == if pixels[x] then b | Mask(x % 8) else b & !Mask(x % 8)
    ensures i < |before + PackedRow(pixels[..x], stride) + rest|
    ensures (before + PackedRow(pixels[..x], stride) + rest)[i := v] == before + PackedRow(pixels[..x + 1], stride) + rest
  {
    var bits := pixels[..x];
    var c, k := x / 8, x % 8;
    assert |bits| == 8 * c + k && c < stride;
    var row := PackedRow(bits, stride);
    PackStep(before, bits, rest, pixels[x], stride, c, k);
    assert v == if pixels[x] then row[c] | Mask(k) else row[c] & !Mask(k);
    assert pixels[..x + 1] == bits + [pixels[x]];
  }

  /** The same pass with the pixel's byte `c` and bit position `k` named: pixel `8c + k` joins byte `c`. */
  lemma PackStep(before: seq<bv8>, bits: seq<bool>, rest: seq<bv8>, white: bool, stride: nat, c: nat, k: nat)
    requires |bits| == 8 * c + k && k < 8 && c < stride
    ensures var row := PackedRow(bits, stride);
      var buf := before + row + rest;
      && |before| + c < |buf| && buf[|before| + c] == row[c]
      && buf[|before| + c := if white then row[c] | Mask(k) else row[c] & !Mask(k)]
         == before + PackedRow(bits + [white], stride) + rest
  {
    var row := PackedRow(bits, stride);
    PackedRowAppend(bits, white, stride, c, k);
    UpdateBetween(before, row, rest, c, if white then row[c] | Mask(k) else row[c] & !Mask(k));
  }

  /**
   * `pixelData[offset++] = value` in the 24-bit loops: byte `j` of the row being stored
   * joins what has been written, in front of the still-zero rest of the buffer.
   */
  method PutByte(pixelData: array<bv8>, ghost before: seq<bv8>, ghost row: seq<bv8>, j: nat, offset: nat, value: bv8)
    returns (next: nat)
    requires j < |row| && value == row[j] && offset == |before| + j < pixelData.Length
    requires pixelData[..] == before + row[..j] + Zeros(pixelData.Length - offset)
    modifies pixelData
    ensures next == offset + 1
    ensures pixelData[..] == before + row[..j + 1] + Zeros(pixelData.Length - next)
  {
    pixelData[offset] := value;
    next := offset + 1;
    StoreStep(before, row, j, pixelData.Length - offset);
  }

  /** One byte store of the 24-bit loops: byte `j` of the row joins what has been written. */
  lemma StoreStep(before: seq<bv8>, row: seq<bv8>, j: nat, n: nat)
    requires j < |row| && n >= 1
    ensures (before + row[..j] + Zeros(n))[|before| + j := row[j]] == before + row[..j + 1] + Zeros(n - 1)
  {
    StoreOntoZeros(before + row[..j], n, row[j]);
    assert row[..j + 1] == row[..j] + [row[j]];
  }
}
