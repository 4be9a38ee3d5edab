/**
 * The fixed part of an uncompressed Windows bitmap file: the 14-byte file header
 * (BITMAPFILEHEADER), the 40-byte information header (BITMAPINFOHEADER) and the colour
 * table that follows it, as one record, its byte layout, and a reader for that layout.
 */
module BmpHeader {
  import opened Wrappers
  import opened Bytes

  /** The ASCII signature "BM" that opens every bitmap file. */
  const Signature: seq<bv8> := [0x42, 0x4D]
  const FileHeaderSize: nat := 14
  const InfoHeaderSize: nat := 40

  /** The fields of both headers, in file order; the palette holds 0x00RRGGBB colour-table entries. */
  datatype Header = Header(
    fileSize: nat,
    dataOffset: nat,
    width: int,
    height: int,
    planes: nat,
    bitsPerPixel: nat,
    compression: nat,
    imageSize: nat,
    xPixelsPerMeter: int,
    yPixelsPerMeter: int,
    colorsUsed: nat,
    colorsImportant: nat,
    palette: seq<nat>)

  predicate IsInt32(v: int) { -TWO_31 <= v < TWO_31 }

  /** Every field fits the width the layout gives it, and the colour table has `colorsUsed` entries. */
  predicate Representable(h: Header)
  {
    && h.fileSize < TWO_32 && h.dataOffset < TWO_32
    && IsInt32(h.width) && IsInt32(h.height)
    && h.planes < TWO_16 && h.bitsPerPixel < TWO_16
    && h.compression < TWO_32 && h.imageSize < TWO_32
    && IsInt32(h.xPixelsPerMeter) && IsInt32(h.yPixelsPerMeter)
    && h.colorsUsed < TWO_32 && h.colorsImportant < TWO_32
    && |h.palette| == h.colorsUsed
    && forall i :: 0 <= i < |h.palette| ==> h.palette[i] < TWO_32
  }

  /** The colour table: one little-endian 32-bit entry after another. */
  function PaletteBytes(palette: seq<nat>): (r: seq<bv8>)
    requires forall i :: 0 <= i < |palette| ==> palette[i] < TWO_32
    ensures |r| == 4 * |palette|
  {
    if palette == [] then [] else PaletteBytes(palette[..|palette| - 1]) + UInt32LE(palette[|palette| - 1])
  }

  /**
   * The 54 bytes of both headers: BITMAPFILEHEADER (signature, file size, a reserved zero,
   * the offset of the pixel data), then BITMAPINFOHEADER (its own size, the image geometry
   * and format, the resolution and the colour counts).
   */
  function FixedBytes(h: Header): (r: seq<bv8>)
    requires Representable(h)
    ensures |r| == FileHeaderSize + InfoHeaderSize
  {
    Signature + UInt32LE(h.fileSize) + UInt32LE(0) + UInt32LE(h.dataOffset)
    + UInt32LE(InfoHeaderSize) + Int32LE(h.width) + Int32LE(h.height)
    + UInt16LE(h.planes) + UInt16LE(h.bitsPerPixel)
    + UInt32LE(h.compression) + UInt32LE(h.imageSize)
    + Int32LE(h.xPixelsPerMeter) + Int32LE(h.yPixelsPerMeter)
    + UInt32LE(h.colorsUsed) + UInt32LE(h.colorsImportant)
  }

  /** The whole header block as it stands at the start of the file. */
  function HeaderBytes(h: Header): (r: seq<bv8>)
    requires Representable(h)
    ensures |r| == FileHeaderSize + InfoHeaderSize + 4 * |h.palette|
  {
    FixedBytes(h) + PaletteBytes(h.palette)
  }

  /**
   * A reader of the layout: it checks the signature and the information-header size,
   * reads every field from its offset, and reads `colorsUsed` colour-table entries.
   */
  function ParseHeader(file: seq<bv8>): (r: Option<Header>)
    ensures r.Some? ==> |file| >= FileHeaderSize + InfoHeaderSize + 4 * r.value.colorsUsed
  {
    if |file| < FileHeaderSize + InfoHeaderSize || file[..2] != Signature || Uint32At(file, 14) != InfoHeaderSize then
      None
    else
      var colors := Uint32At(file, 46);
      if |file| < FileHeaderSize + InfoHeaderSize + 4 * colors then None
      else
        Some(Header(
          Uint32At(file, 2), Uint32At(file, 10), Int32At(file, 18), Int32At(file, 22),
          Uint16At(file, 26), Uint16At(file, 28), Uint32At(file, 30), Uint32At(file, 34),
          Int32At(file, 38), Int32At(file, 42), colors, Uint32At(file, 50),
          ReadPalette(file, colors)))
  }

  /** The `count` colour-table entries that follow the information header. */
  function ReadPalette(file: seq<bv8>, count: nat): (palette: seq<nat>)
    requires FileHeaderSize + InfoHeaderSize + 4 * count <= |file|
    ensures |palette| == count
  {
    seq(count, i requires 0 <= i < count => Uint32At(file, 54 + 4 * i))
  }

  /** Entry `i` of the colour table is read back from bytes `4i .. 4i+3` of its encoding. */
  lemma {:induction false} PaletteEntryAt(palette: seq<nat>, rest: seq<bv8>, i: nat)
    requires forall j :: 0 <= j < |palette| ==> palette[j] < TWO_32
    requires i < |palette|
    ensures Uint32At(PaletteBytes(palette) + rest, 4 * i) == palette[i]
  {
    var n := |palette| - 1;
    var front := PaletteBytes(palette[..n]);
    assert PaletteBytes(palette) + rest == front + (UInt32LE(palette[n]) + rest);
    if i == n {
      Uint32AtAppend(front, UInt32LE(palette[n]) + rest, 0);
      Uint32AtAppend(rest, UInt32LE(palette[n]), 0);
      UInt32RoundTrip(palette[n]);
    } else {
      assert palette[..n][i] == palette[i];
      PaletteEntryAt(palette[..n], UInt32LE(palette[n]) + rest, i);
    }
  }

  /** Whatever follows the header block, the reader gets back exactly the record that was laid out. */
  lemma ParseRoundTrip(h: Header, rest: seq<bv8>)
    requires Representable(h)
    ensures ParseHeader(HeaderBytes(h) + rest) == Some(h)
  {
    var file := HeaderBytes(h) + rest;
    var tail := PaletteBytes(h.palette) + rest;
    assert file == FixedBytes(h) + tail;
    FixedFields(h, tail);
    PaletteRead(h, rest);
  }

  /** The colour-table entries the reader collects are the record's palette. */
  lemma PaletteRead(h: Header, rest: seq<bv8>)
    requires Representable(h)
    ensures ReadPalette(HeaderBytes(h) + rest, h.colorsUsed) == h.palette
  {
    var palette := ReadPalette(HeaderBytes(h) + rest, h.colorsUsed);
    forall i | 0 <= i < h.colorsUsed
      ensures palette[i] == h.palette[i]
    {
      PaletteEntryRead(h, rest, i);
    }
  }

  /** Entry `i` of the colour table is read from offset `54 + 4i` of the file. */
  lemma PaletteEntryRead(h: Header, rest: seq<bv8>, i: nat)
    requires Representable(h) && i < h.colorsUsed
    ensures FileHeaderSize + InfoHeaderSize + 4 * i + 4 <= |HeaderBytes(h) + rest|
    ensures Uint32At(HeaderBytes(h) + rest, FileHeaderSize + InfoHeaderSize + 4 * i) == h.palette[i]
  {
    var fixed := FixedBytes(h);
    var tail := PaletteBytes(h.palette) + rest;
    assert HeaderBytes(h) + rest == fixed + tail;
    Uint32AtAppend(fixed, tail, 4 * i);
    PaletteEntryAt(h.palette, rest, i);
  }

  /** Each field of the fixed part stands at its offset: the table of both headers. */
  lemma FixedFields(h: Header, rest: seq<bv8>)
    requires Representable(h)
    ensures var file := FixedBytes(h) + rest;
      && file[..2] == Signature
      && Uint32At(file, 2) == h.fileSize
      && Uint32At(file, 6) == 0
      && Uint32At(file, 10) == h.dataOffset
      && Uint32At(file, 14) == InfoHeaderSize
      && Int32At(file, 18) == h.width
      && Int32At(file, 22) == h.height
      && Uint16At(file, 26) == h.planes
      && Uint16At(file, 28) == h.bitsPerPixel
      && Uint32At(file, 30) == h.compression
      && Uint32At(file, 34) == h.imageSize
      && Int32At(file, 38) == h.xPixelsPerMeter
      && Int32At(file, 42) == h.yPixelsPerMeter
      && Uint32At(file, 46) == h.colorsUsed
      && Uint32At(file, 50) == h.colorsImportant
  {
    assert (FixedBytes(h) + rest)[..2] == Signature;
    FileSizeAt(h, rest);
    ReservedAt(h, rest);
    DataOffsetAt(h, rest);
    InfoSizeAt(h, rest);
    WidthAt(h, rest);
    HeightAt(h, rest);
    PlanesAt(h, rest);
    BitsPerPixelAt(h, rest);
    CompressionAt(h, rest);
    ImageSizeAt(h, rest);
    XResolutionAt(h, rest);
    YResolutionAt(h, rest);
    ColorsUsedAt(h, rest);
    ColorsImportantAt(h, rest);
  }

  lemma FileSizeAt(h: Header, rest: seq<bv8>)
    requires Representable(h)
    ensures Uint32At(FixedBytes(h) + rest, 2) == h.fileSize
  {
    var file := FixedBytes(h) + rest;
    assert file[2..6] == UInt32LE(h.fileSize);
    U32Field(file, 2, h.fileSize);
  }

  lemma ReservedAt(h: Header, rest: seq<bv8>)
    requires Representable(h)
    ensures Uint32At(FixedBytes(h) + rest, 6) == 0
  {
    var file := FixedBytes(h) + rest;
    assert file[6..10] == UInt32LE(0);
    U32Field(file, 6, 0);
  }

  lemma DataOffsetAt(h: Header, rest: seq<bv8>)
    requires Representable(h)
    ensures Uint32At(FixedBytes(h) + rest, 10) == h.dataOffset
  {
    var file := FixedBytes(h) + rest;
    assert file[10..14] == UInt32LE(h.dataOffset);
    U32Field(file, 10, h.dataOffset);
  }

  lemma InfoSizeAt(h: Header, rest: seq<bv8>)
    requires Representable(h)
    ensures Uint32At(FixedBytes(h) + rest, 14) == InfoHeaderSize
  {
    var file := FixedBytes(h) + rest;
    assert file[14..18] == UInt32LE(InfoHeaderSize);
    U32Field(file, 14, InfoHeaderSize);
  }

  lemma WidthAt(h: Header, rest: seq<bv8>)
    requires Representable(h)
    ensures Int32At(FixedBytes(h) + rest, 18) == h.width
  {
    var file := FixedBytes(h) + rest;
    assert file[18..22] == Int32LE(h.width);
    I32Field(file, 18, h.width);
  }

  lemma HeightAt(h: Header, rest: seq<bv8>)
    requires Representable(h)
    ensures Int32At(FixedBytes(h) + rest, 22) == h.height
  {
    var file := FixedBytes(h) + rest;
    assert file[22..26] == Int32LE(h.height);
    I32Field(file, 22, h.height);
  }

  lemma PlanesAt(h: Header, rest: seq<bv8>)
    requires Representable(h)
    ensures Uint16At(FixedBytes(h) + rest, 26) == h.planes
  {
    var file := FixedBytes(h) + rest;
    assert file[26..28] == UInt16LE(h.planes);
    U16Field(file, 26, h.planes);
  }

  lemma BitsPerPixelAt(h: Header, rest: seq<bv8>)
    requires Representable(h)
    ensures Uint16At(FixedBytes(h) + rest, 28) == h.bitsPerPixel
  {
    var file := FixedBytes(h) + rest;
    assert file[28..30] == UInt16LE(h.bitsPerPixel);
    U16Field(file, 28, h.bitsPerPixel);
  }

  lemma CompressionAt(h: Header, rest: seq<bv8>)
    requires Representable(h)
    ensures Uint32At(FixedBytes(h) + rest, 30) == h.compression
  {
    var file := FixedBytes(h) + rest;
    assert file[30..34] == UInt32LE(h.compression);
    U32Field(file, 30, h.compression);
  }

  lemma ImageSizeAt(h: Header, rest: seq<bv8>)
    requires Representable(h)
    ensures Uint32At(FixedBytes(h) + rest, 34) == h.imageSize
  {
    var file := FixedBytes(h) + rest;
    assert file[34..38] == UInt32LE(h.imageSize);
    U32Field(file, 34, h.imageSize);
  }

  lemma XResolutionAt(h: Header, rest: seq<bv8>)
    requires Representable(h)
    ensures Int32At(FixedBytes(h) + rest, 38) == h.xPixelsPerMeter
  {
    var file := FixedBytes(h) + rest;
    assert file[38..42] == Int32LE(h.xPixelsPerMeter);
    I32Field(file, 38, h.xPixelsPerMeter);
  }

  lemma YResolutionAt(h: Header, rest: seq<bv8>)
    requires Representable(h)
    ensures Int32At(FixedBytes(h) + rest, 42) == h.yPixelsPerMeter
  {
    var file := FixedBytes(h) + rest;
    assert file[42..46] == Int32LE(h.yPixelsPerMeter);
    I32Field(file, 42, h.yPixelsPerMeter);
  }

  lemma ColorsUsedAt(h: Header, rest: seq<bv8>)
    requires Representable(h)
    ensures Uint32At(FixedBytes(h) + rest, 46) == h.colorsUsed
  {
    var file := FixedBytes(h) + rest;
    assert file[46..50] == UInt32LE(h.colorsUsed);
    U32Field(file, 46, h.colorsUsed);
  }

  lemma ColorsImportantAt(h: Header, rest: seq<bv8>)
    requires Representable(h)
    ensures Uint32At(FixedBytes(h) + rest, 50) == h.colorsImportant
  {
    var file := FixedBytes(h) + rest;
    assert file[50..54] == UInt32LE(h.colorsImportant);
    U32Field(file, 50, h.colorsImportant);
  }

  lemma U32Field(file: seq<bv8>, off: nat, v: nat)
    requires v < TWO_32 && off + 4 <= |file| && file[off..off + 4] == UInt32LE(v)
    ensures Uint32At(file, off) == v
  {
    UInt32RoundTrip(v);
    assert UInt32LE(v)[0..4] == UInt32LE(v);
  }

  lemma I32Field(file: seq<bv8>, off: nat, v: int)
    requires IsInt32(v) && off + 4 <= |file| && file[off..off + 4] == Int32LE(v)
    ensures Int32At(file, off) == v
  {
    Int32RoundTrip(v);
    assert Int32LE(v)[0..4] == Int32LE(v);
  }

  lemma U16Field(file: seq<bv8>, off: nat, v: nat)
    requires v < TWO_16 && off + 2 <= |file| && file[off..off + 2] == UInt16LE(v)
    ensures Uint16At(file, off) == v
  {
    UInt16RoundTrip(v);
    assert UInt16LE(v)[0..2] == UInt16LE(v);
  }
}
