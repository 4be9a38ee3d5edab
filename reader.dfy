/**
 * A reader of the bitmap layout, written from the format's own rules rather than from the
 * encoder: it parses the headers, takes the row stride as the bits of a row rounded up to
 * whole 32-bit words, honours the sign of the height (negative: rows stored top-down), and
 * looks one-bit pixels up in the colour table. It is the partner the encoder is checked against.
 */
module BmpReader {
  import opened Wrappers
  import opened Bytes
  import opened BmpHeader

  /** A colour, one byte per channel. */
  datatype Rgb = Rgb(red: nat, green: nat, blue: nat)

  const Black: Rgb := Rgb(0, 0, 0)
  const White: Rgb := Rgb(255, 255, 255)

  /** A colour-table entry, 0x00RRGGBB. */
  function PaletteColor(entry: nat): (c: Rgb)
    ensures c.red < 256 && c.green < 256 && c.blue < 256
  {
    Rgb(entry / 0x1_0000 % 256, entry / 0x100 % 256, entry % 256)
  }

  /** Bit `n` of byte `b`, counting from the least significant bit. */
  predicate Bit(b: bv8, n: nat)
    requires n < 8
  {
    (b >> n) & 1 == 1
  }

  /** The number of pixel rows, whichever way they are stored. */
  function Rows(h: Header): nat
  {
    if h.height < 0 then -h.height else h.height
  }

  /** The byte length of one stored row: `bitsPerPixel * width` bits rounded up to whole 32-bit words. */
  function Stride(h: Header): nat
    requires h.width >= 0
  {
    (h.bitsPerPixel * h.width + 31) / 32 * 4
  }

  /** Where pixel row `y`, counted from the top, is stored: top-down when the height is negative. */
  function StoredRowIndex(h: Header, y: nat): (row: nat)
    requires y < Rows(h)
    ensures row < Rows(h)
  {
    if h.height < 0 then y else Rows(h) - 1 - y
  }

  /** The file offset of the stored row that holds pixel row `y`. */
  function RowStart(h: Header, y: nat): nat
    requires h.width >= 0 && y < Rows(h)
  {
    h.dataOffset + StoredRowIndex(h, y) * Stride(h)
  }

  /**
   * The colour of pixel (x, y), counted from the top-left corner, or None when the file is
   * not an uncompressed bitmap of one or 24 bits per pixel that holds that pixel.
   */
  function ReadPixel(file: seq<bv8>, x: nat, y: nat): Option<Rgb>
  {
    match ParseHeader(file)
    case None => None
    case Some(h) =>
      if h.compression != 0 || x >= h.width || y >= Rows(h) then None
      else
        if h.bitsPerPixel == 1 then ReadIndexed(file, h.palette, RowStart(h, y) + x / 8, 7 - x % 8)
        else if h.bitsPerPixel == 24 then ReadRgb(file, RowStart(h, y) + 3 * x)
        else None
  }

  /** A colour-table pixel: bit `bit` of byte `at` selects entry 1 when set, entry 0 otherwise. */
  function ReadIndexed(file: seq<bv8>, palette: seq<nat>, at: nat, bit: nat): Option<Rgb>
    requires bit < 8
  {
    if at >= |file| then None
    else
      var index := if Bit(file[at], bit) then 1 else 0;
      if index < |palette| then Some(PaletteColor(palette[index])) else None
  }

  /** A 24-bit pixel: blue, green and red bytes from `at` on. */
  function ReadRgb(file: seq<bv8>, at: nat): Option<Rgb>
  {
    if at + 2 >= |file| then None
    else Some(Rgb(Value(file[at + 2]), Value(file[at + 1]), Value(file[at])))
  }
}
