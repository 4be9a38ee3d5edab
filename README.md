# BMP encoder model

A Dafny model of `BMPEncoder`, the class in `puppet/ha-puppet/bmp.js` that turns a flat array of
pixel values into the bytes of an uncompressed Windows bitmap file. It covers the list of
supported bit depths, the constructor with its depth check and row-padding arithmetic,
`createHeader`, `createPixelData` with both its one-bit and its 24-bit branch, and `encode`.

The encoder is a class, `Bmp.BmpEncoder`. Its fields are set once, by the constructor. Its
methods fill freshly allocated, zeroed `array<bv8>` buffers the way the JavaScript code fills its
`Buffer`s:

- `CreateHeader` makes field writes at fixed offsets.
- `CreatePixelData` runs the read-modify-write bit loop for one bit per pixel.
- For 24 bits per pixel it stores blue, green, red and then the padding at a running `offset`.

Each method is proved against a specification function:

- `HeaderBytes(EncoderHeader(..))` is the byte layout of the header record the encoder fills in.
- `PixelData(..)` is the rows stored top-down and padded to the stride.

The properties are proved about those functions, and about a separate reader (`BmpReader`). The
reader is written from the format's own rules, not from the encoder:

- the stride is the row's bits rounded up to whole 32-bit words;
- the sign of the height gives the row order;
- one-bit pixels go through the colour table.

The main results are:

- the encoded file parses back to the header the encoder wrote;
- the file announces its own length and pixel-data offset;
- every pixel reads back as the colour of the input pixel.

Modules:

- `Wrappers`, `Bytes`: Option/Result, bytes, little-endian and two's-complement encodings, and
  the Node `Buffer` writers the encoder calls, as methods over `array<bv8>`.
- `BmpHeader`: the header record, its byte layout, and a parser for it.
- `BmpLayout`: the supported depths, the row arithmetic, the header sizes, and the record the
  encoder fills in.
- `PixelPacking`: what the pixel data is, byte by byte and bit by bit.
- `Bmp`: the encoder class and its loops.
- `BmpReader`: the independent reader.
- `BmpRoundTrip`: the end-to-end properties.

The source stores each row with nested loops. The model gives each outer loop its own method
(`PackRows`, `StoreRgbRows`) and the body of an outer iteration its own method (`PackRow`,
`StoreRgbRow`). The writes happen in the same order, on the same array.

Where the code departs from what a reader of the format would expect, the model follows the code:

- The image-size field (bmp.js:43) is written as `width * height * (bitsPerPixel / 8)`, with
  Node's 32-bit write truncating the fraction. The format means it as the size of the pixel
  data, padding included. The model writes `(width * height * bitsPerPixel) / 8`:
  - `ImageSizeBelowData` proves this never exceeds the pixel data;
  - `ImageSizeFieldIsNotDataSize` shows two images where it falls short of it.
- The code does not check that the input array is long enough. Reading past the end yields
  `undefined`:
  - for one bit per pixel such a pixel is not 0xFF, so it is black;
  - for 24 bits the `Buffer` stores 0.

  The model does the same (`Element`, `IsWhite`, `SampleByte`) and puts no length precondition on
  `encode`.
- The code does not check that the width and height are positive. The model takes any `nat`,
  zero included.

## Model

| member | source | states |
|---|---|---|
| Bmp.BmpEncoder.Create | puppet/ha-puppet/bmp.js:1-11 | Construction fails exactly when the depth is neither 1 nor 24. The error carries the depth and the supported list `[1, 24]`. On success it returns a fresh encoder with the given width, height and depth and the constructor's row layout. |
| Bmp.BmpEncoder.constructor | puppet/ha-puppet/bmp.js:4-17 | It stores width, height and depth. `padding` is below 4. `paddedWidthBytes` is `ceil(width * bitsPerPixel / 8) + padding` and a multiple of 4. |
| BmpLayout.IsSupported | puppet/ha-puppet/bmp.js:1-9 | A depth passes the check against `supportedBitsPerPixel` exactly when it is 1 or 24. |
| BmpLayout.RowBytes | puppet/ha-puppet/bmp.js:14 | The row's byte count is the ceiling of `width * bitsPerPixel / 8`: its eight times covers the row's bits by less than a byte. |
| BmpLayout.PaddingFor | puppet/ha-puppet/bmp.js:15 | The padding is below 4 and brings the row to a multiple of 4 bytes. |
| BmpLayout.PaddedWidthBounds | puppet/ha-puppet/bmp.js:14-16 | `paddedWidthBytes` (`PaddedWidthBytes`) is a multiple of 4. It is at least the row's byte count and less than 4 bytes more, and no smaller length from the byte count on is a multiple of 4. |
| BmpLayout.PaddedWidthIsStride | puppet/ha-puppet/bmp.js:14-16 | The padded row length equals the standard DIB stride `((bitsPerPixel * width + 31) / 32) * 4`, which the reader uses, and is a multiple of 4. |
| Bmp.BmpEncoder.Encode | puppet/ha-puppet/bmp.js:19-23 | The result is the header block followed by the pixel data (`EncodedFile`). |
| Bmp.EncodedFile | puppet/ha-puppet/bmp.js:20-22 | The encoded file is `headerSize + height * paddedWidthBytes` bytes long. |
| Bmp.BmpEncoder.CreateHeader | puppet/ha-puppet/bmp.js:25-56 | It returns a fresh buffer that holds exactly the byte layout of the record `EncoderHeader`: both headers, plus the black/white colour table for one bit per pixel. |
| BmpLayout.EncoderHeader | puppet/ha-puppet/bmp.js:25-53 | For an image that meets `FitsHeader` (width below 2^31, height at most 2^31, file size below 2^32), every field the encoder writes fits the width of its field: `width` and `-height` as signed 32-bit values, the sizes as unsigned 32-bit values. |
| BmpLayout.HeaderSize | puppet/ha-puppet/bmp.js:26 | `headerSize` is the 14-byte file header plus the 40-byte information header. For one bit per pixel it adds the two 4-byte colour-table entries. |
| BmpLayout.FileSize | puppet/ha-puppet/bmp.js:27 | `fileSize` is the header size plus pixel data that is a whole number of 4-byte words. |
| BmpLayout.HeaderBlockSize | puppet/ha-puppet/bmp.js:26 | The header block is 62 bytes for one bit per pixel and 54 otherwise. |
| Bmp.WriteFixedFields | puppet/ha-puppet/bmp.js:30-47 | The fifteen field writes, in the source's order, turn the zeroed buffer into the 54 bytes of both headers, followed by zeros. |
| Bmp.MonochromePaletteBytes | puppet/ha-puppet/bmp.js:50-53 | The two writes at 54 and 58 lay out the colour table `[0x00000000, 0x00FFFFFF]`. |
| BmpLayout.ImageSizeField | puppet/ha-puppet/bmp.js:43 | The image-size field is `width * height * (bitsPerPixel / 8)` truncated to an integer: eight times the field is at most `width * height * bitsPerPixel` and less than that plus 8. |
| BmpLayout.ImageSizeBelowData | puppet/ha-puppet/bmp.js:43 | The image-size field as computed never exceeds the pixel-data length, so it fits 32 bits whenever the file size does. |
| BmpLayout.ImageSizeFieldIsNotDataSize | puppet/ha-puppet/bmp.js:43 | The field is not the pixel-data length. For 1x1 at 24 bits it is 3 against 4 bytes. For 9x1 at one bit it is 1 against 4 bytes. |
| BmpRoundTrip.MonochromeColors | puppet/ha-puppet/bmp.js:51-52 | The two colour-table entries the encoder writes, 0x00000000 and 0x00FFFFFF, stand for black and white. |
| BmpHeader.FixedFields | puppet/ha-puppet/bmp.js:31-47 | Each header field reads back from its offset. "BM" is at 0. The 32-bit fields are at 2, 6, 10, 14, 30, 34, 46 and 50. The signed width and height are at 18 and 22, and the resolutions at 38 and 42. The 16-bit planes and depth are at 26 and 28. |
| BmpHeader.ParseRoundTrip | puppet/ha-puppet/bmp.js:30-53 | Whatever follows it, the laid-out header block parses back to exactly the record it came from, colour table included. |
| BmpHeader.PaletteEntryRead | puppet/ha-puppet/bmp.js:50-53 | Colour-table entry `i` reads back from offset `54 + 4i`. |
| Bytes.WriteLittleEndian | puppet/ha-puppet/bmp.js:32-47 | The `n`-byte little-endian write stores `LittleEndian(value, n)` at the offset. It leaves every other byte as it was. |
| Bytes.WriteUInt32LE | puppet/ha-puppet/bmp.js:32-47 | `writeUInt32LE` stores the four little-endian bytes of the value at the offset and changes nothing else. |
| Bytes.WriteUInt16LE | puppet/ha-puppet/bmp.js:40-41 | `writeUInt16LE` stores the two little-endian bytes of the value at the offset and changes nothing else. |
| Bytes.WriteAscii | puppet/ha-puppet/bmp.js:31 | `write("BM", 0, 2, "ascii")` stores the signature's bytes at the offset and changes nothing else. |
| Bytes.WriteInt32LE | puppet/ha-puppet/bmp.js:38-39 | The signed write stores the two's-complement bytes of the value and changes nothing else. |
| Bytes.LittleEndianRoundTrip | puppet/ha-puppet/bmp.js:32-47 | Reading back `n` little-endian bytes of a value below `256^n` gives the value. |
| Bytes.Int32RoundTrip | puppet/ha-puppet/bmp.js:38-39 | The four bytes `writeInt32LE` stores for a signed 32-bit value, `-height` included, read back as that value. |
| Bytes.TwosComplement32 | puppet/ha-puppet/bmp.js:39 | The 32-bit pattern of a signed value agrees with it modulo 2^32. Its top bit is set exactly for negative values. |
| Bytes.ToUint8 | puppet/ha-puppet/bmp.js:86-88 | A value assigned to a buffer element keeps its residue modulo 256. |
| Bmp.BmpEncoder.CreatePixelData | puppet/ha-puppet/bmp.js:58-98 | It returns a fresh buffer of `height * paddedWidthBytes` bytes that holds exactly `PixelData`: the rows, top row first, each packed or stored for the depth and padded to the stride. |
| PixelPacking.PixelData | puppet/ha-puppet/bmp.js:60 | The pixel data is `height * paddedWidthBytes` bytes long. |
| Bmp.PackRows | puppet/ha-puppet/bmp.js:62-76 | The one-bit outer loop turns the zeroed buffer into the packed rows `0 .. height-1`. |
| Bmp.PackRow | puppet/ha-puppet/bmp.js:64-75 | The inner loop packs row `y` into its stride-long slot. It leaves the rows before as they were and the rest of the buffer zero. |
| PixelPacking.ElementRead | puppet/ha-puppet/bmp.js:65-69 | `imageData[i]` (`Element`) is the element within the input, and the test `pixel === 0xFF` (`IsWhite`) then holds exactly when it is 0xFF. Past the end it is `undefined` (None): the pixel is black for one bit per pixel, and 0 is stored for 24 bits. |
| PixelPacking.MaskIsShift | puppet/ha-puppet/bmp.js:70 | The model's mask for pixel `k` of a group is `1 << (7 - k)`. |
| PixelPacking.SetBitFrame | puppet/ha-puppet/bmp.js:69-70 | Or-ing the mask into `currentByte` sets the pixel's bit. It keeps every other bit of the byte. |
| PixelPacking.ClearBitFrame | puppet/ha-puppet/bmp.js:71-72 | And-ing `currentByte` with the inverted mask clears the pixel's bit. It keeps every other bit of the byte. |
| PixelPacking.MonochromePixelBit | puppet/ha-puppet/bmp.js:63-75 | Pixel (x, y) is bit `7 - x % 8` of the byte at row-major position `x / 8` of row `y` (`RowMajor`, equal to `y * paddedWidthBytes + x / 8` by `RowMajorProduct`). That bit is set exactly when input element `y * width + x` is 0xFF. |
| PixelPacking.MonochromePixelPositions | puppet/ha-puppet/bmp.js:65-72 | The same bit, at the positions written as the source computes them: bit `7 - x % 8` of byte `y * paddedWidthBytes + x / 8` is set exactly when input element `y * width + x` is 0xFF. |
| PixelPacking.MonochromeUnusedBitsClear | puppet/ha-puppet/bmp.js:60-74 | In byte `y * paddedWidthBytes + c`, every bit `7 - k` that stands for no pixel (column `8c + k` at or past `width`) is 0. |
| PixelPacking.MonochromePaddingZero | puppet/ha-puppet/bmp.js:60-76 | In one-bit rows, the padding bytes `y * paddedWidthBytes + c`, for `c` from the row's byte count up to the stride, are 0. |
| PixelPacking.SampleByte | puppet/ha-puppet/bmp.js:83-88 | An input element in 0..255 is stored as itself. A read past the end of the input stores 0. |
| Bmp.StoreRgbRows | puppet/ha-puppet/bmp.js:77-95 | The 24-bit outer loop turns the zeroed buffer into the stored rows `0 .. height-1`. |
| Bmp.PutByte | puppet/ha-puppet/bmp.js:86-92 | `pixelData[offset++] = value` stores the next byte of the row at the running offset and advances it by one. The rest of the buffer stays zero. |
| Bmp.StoreRgbRow | puppet/ha-puppet/bmp.js:81-93 | Row `y` is stored at the running offset, and the rest of the buffer stays zero. Afterwards `offset` is `(y + 1) * paddedWidthBytes`. |
| PixelPacking.RgbPixelBytes | puppet/ha-puppet/bmp.js:81-89 | The bytes at row-major positions `3x`, `3x + 1` and `3x + 2` of row `y` are blue, green and red. They come from input elements `idx + 2`, `idx + 1` and `idx`, where `idx` is `3(y * width + x)`. |
| PixelPacking.RgbPixelPositions | puppet/ha-puppet/bmp.js:82-88 | The same three bytes, at the positions written as the source computes them: bytes `y * paddedWidthBytes + 3x`, `+1` and `+2` hold input elements `(y * width + x) * 3 + 2`, `+1` and `+0`. |
| PixelPacking.RgbPaddingZero | puppet/ha-puppet/bmp.js:90-93 | The last `padding` bytes of every 24-bit row, `y * paddedWidthBytes + c` for `c` from `3 * width` up to the stride, are 0. |
| BmpRoundTrip.EncodedHeader | puppet/ha-puppet/bmp.js:20-27 | The encoded file parses to the encoder's header. Its file-size field equals the file's length. Its pixel-data offset equals the header block's length, which is where the pixel data starts. |
| BmpRoundTrip.EncodedFields | puppet/ha-puppet/bmp.js:26-47 | The field values of the encoded file are: "BM"; the file size `headerSize + height * paddedWidthBytes`, equal to the file length; 0; `headerSize`; 40; `width`; `-height`; 1; the depth; 0; `width * height * bitsPerPixel / 8`; 0; 0; and 2 and 2 colours for one bit per pixel, 0 and 0 otherwise. |
| BmpRoundTrip.EncodedPalette | puppet/ha-puppet/bmp.js:50-53 | For one bit per pixel the entries at offsets 54 and 58 are 0x00000000 (black) and 0x00FFFFFF (white). |
| BmpRoundTrip.EncodedPixelReadsBack | puppet/ha-puppet/bmp.js:58-95 | Every pixel (x, y) of an encoded file reads back as the input's colour. For one bit per pixel that is white exactly when the element is 0xFF. For 24 bits it is red, green and blue from elements `3(y * width + x)`, `+1` and `+2`. |
| BmpRoundTrip.OutsidePixelUnread | puppet/ha-puppet/bmp.js:38-39 | The width and height written make every pixel outside the image unreadable. |

## Left out

- Bmp.BmpEncoder.CreateHeader: requires `FitsHeader`, i.e. a width below 2^31, a height of at
  most 2^31 and a file size below 2^32. Outside these limits Node's `writeInt32LE` or
  `writeUInt32LE` throws a `RangeError`, which is not modelled.
- Bmp.BmpEncoder.Encode: requires `FitsHeader` for the same reason.
- Bmp.BmpEncoder.constructor: requires a supported depth. The check and its failure are modelled
  by `Bmp.BmpEncoder.Create`, which returns an error value instead of throwing.
- The text of the error message is not modelled. The error value carries the rejected depth and
  the supported list instead.
- Width and height are natural numbers. Negative, fractional or non-numeric arguments, which
  JavaScript would accept without a check, are not modelled.
- Input elements are integers. Fractional values, which a `Buffer` truncates before taking
  them modulo 256, and non-numeric values are not modelled.
- The `Buffer` API is modelled by `array<bv8>` and the writers in `Bytes`. `Buffer.concat` is
  sequence concatenation, and `Encode` returns a sequence.
- `createPixelData` returns the zero-filled buffer for a depth other than 1 or 24. That path
  cannot be reached, because the constructor rejects such depths.
- The unused `rowStart` variable (bmp.js:79) has no counterpart.
- The callers of the encoder and anything that writes its output to a file or the network are
  not part of this model.
