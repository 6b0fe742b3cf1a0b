/**
 * The byte layout that include/systems/image/bmp.hpp writes and reads: an
 * uncompressed 24-bit Windows bitmap made of a packed 14-byte file header, a
 * packed 40-byte info header (both little-endian), then one row per texture
 * row from the bottom row up, each pixel as the bytes B, G, R, each row
 * zero-padded to a multiple of 4 bytes.  Encode and Decode give the file
 * contents as values; the streaming code that produces and consumes them is in
 * module Bmp.
 */
module BmpFormat {
  import opened Colors
  import opened Wrappers
  import opened Textures

  type byte = x: int | 0 <= x < 256

  const FileHeaderSize := 14
  const InfoHeaderSize := 40
  /** sizeof(bmp_file_header) + sizeof(bmp_info_header): where the encoder puts the pixels. */
  const HeaderSize := FileHeaderSize + InfoHeaderSize
  /** "BM" read as a little-endian 16-bit value. */
  const Signature := 0x4D42
  const PixelsPerMeter := 2835
  const Two16 := 0x1_0000
  const Two32 := 0x1_0000_0000

  // Offsets of the header fields in the packed layout.
  const TypeAt := 0
  const FileSizeAt := 2
  const Reserved1At := 6
  const Reserved2At := 8
  const PixelOffsetAt := 10
  const InfoSizeAt := 14
  const WidthAt := 18
  const HeightAt := 22
  const PlanesAt := 26
  const BitCountAt := 28
  const CompressionAt := 30
  const ImageSizeAt := 34
  const XPelsAt := 38
  const YPelsAt := 42
  const ClrUsedAt := 46
  const ClrImportantAt := 50

  /**
   * Why the decoder gives up: a wrong signature ("Not a BMP file"), a bit count
   * or compression it does not handle, an allocation that fails for the
   * dimensions in the header (new color[w * h] or a row buffer of negative
   * size), or a file too short for what the header announces.
   */
  datatype BmpError = NotBmp | Unsupported | AllocationFailed | Truncated

  /** (width * 3 + 3) & ~3: clearing the two low bits of a two's-complement value. */
  function RowPadded(width: int): (rowSize: int)
    ensures 0 <= width ==> rowSize % 4 == 0 && 3 * width <= rowSize <= 3 * width + 3
  {
    var n := width * 3 + 3;
    n - n % 4
  }

  /** For a non-negative width, the padded row is the least multiple of 4 that holds 3 * width bytes. */
  lemma RowPaddedMinimal(width: int, m: int)
    requires 0 <= width && m % 4 == 0 && 3 * width <= m
    ensures RowPadded(width) <= m
  {
  }

  /** The row buffer can be allocated (its size is not negative) exactly for widths of -1 and above. */
  lemma RowPaddedNonNegative(width: int)
    ensures 0 <= RowPadded(width) <==> -1 <= width
  {
  }

  // ---------------------------------------------------------------- integers

  function LE16(v: int): (s: seq<byte>)
    ensures |s| == 2
  {
    var u := v % Two16;
    [u % 256, u / 256]
  }

  /** A 32-bit field: the value reduced modulo 2^32, as the C++ conversion to a 32-bit field does. */
  function LE32(v: int): (s: seq<byte>)
    ensures |s| == 4
  {
    var u := v % Two32;
    var q1 := u / 256;
    var q2 := q1 / 256;
    [u % 256, q1 % 256, q2 % 256, q2 / 256]
  }

  function U16(s: seq<byte>, at: int): (v: int)
    requires 0 <= at && at + 2 <= |s|
    ensures 0 <= v < Two16
  {
    s[at] as int + 256 * s[at + 1] as int
  }

  function U32(s: seq<byte>, at: int): (v: int)
    requires 0 <= at && at + 4 <= |s|
    ensures 0 <= v < Two32
  {
    s[at] as int + 256 * (s[at + 1] as int + 256 * (s[at + 2] as int + 256 * s[at + 3] as int))
  }

  function I32(s: seq<byte>, at: int): int
    requires 0 <= at && at + 4 <= |s|
  {
    var u := U32(s, at);
    if u < 0x8000_0000 then u else u - Two32
  }

  lemma ReadLE16(s: seq<byte>, at: int, v: int)
    requires 0 <= at && at + 2 <= |s| && s[at..at + 2] == LE16(v)
    ensures U16(s, at) == v % Two16
  {
    assert s[at] == LE16(v)[0] && s[at + 1] == LE16(v)[1];
  }

  lemma ReadLE32(s: seq<byte>, at: int, v: int)
    requires 0 <= at && at + 4 <= |s| && s[at..at + 4] == LE32(v)
    ensures U32(s, at) == v % Two32
    ensures -0x8000_0000 <= v < 0x8000_0000 ==> I32(s, at) == v
  {
    var e := LE32(v);
    assert s[at] == e[0] && s[at + 1] == e[1] && s[at + 2] == e[2] && s[at + 3] == e[3];
    var u := v % Two32;
    var q1 := u / 256;
    var q2 := q1 / 256;
    assert u == u % 256 + 256 * q1;
    assert q1 == q1 % 256 + 256 * q2;
    assert q2 == q2 % 256 + 256 * (q2 / 256);
  }

  // ---------------------------------------------------------------- headers

  /** bmp_file_header with bfSize set and bfOffBits at its default of 54. */
  function FileHeader(fileSize: int): (s: seq<byte>)
    ensures |s| == FileHeaderSize
  {
    LE16(Signature) + LE32(fileSize) + LE16(0) + LE16(0) + LE32(HeaderSize)
  }

  /** bmp_info_header with biWidth, biHeight and biSizeImage set, the rest at their defaults. */
  function InfoHeader(width: int, height: int, imageSize: int): (s: seq<byte>)
    ensures |s| == InfoHeaderSize
  {
    LE32(InfoHeaderSize) + LE32(width) + LE32(height) + LE16(1) + LE16(24) + LE32(0)
    + LE32(imageSize) + LE32(PixelsPerMeter) + LE32(PixelsPerMeter) + LE32(0) + LE32(0)
  }

  /** Both headers as the encoder fills them for a texture of the given dimensions. */
  function Header(width: int, height: int): (s: seq<byte>)
    ensures |s| == HeaderSize
  {
    var dataSize := RowPadded(width) * height;
    FileHeader(HeaderSize + dataSize) + InfoHeader(width, height, dataSize)
  }

  /** Every field of the encoder's header, as the decoder's readers see it. */
  lemma HeaderFields(width: int, height: int)
    requires -0x8000_0000 <= width < 0x8000_0000 && -0x8000_0000 <= height < 0x8000_0000
    ensures var h := Header(width, height); var dataSize := RowPadded(width) * height;
      && U16(h, TypeAt) == Signature
      && U32(h, FileSizeAt) == (HeaderSize + dataSize) % Two32
      && U16(h, Reserved1At) == 0 && U16(h, Reserved2At) == 0
      && U32(h, PixelOffsetAt) == HeaderSize
      && U32(h, InfoSizeAt) == InfoHeaderSize
      && I32(h, WidthAt) == width && I32(h, HeightAt) == height
      && U16(h, PlanesAt) == 1 && U16(h, BitCountAt) == 24
      && U32(h, CompressionAt) == 0
      && U32(h, ImageSizeAt) == dataSize % Two32
      && I32(h, XPelsAt) == PixelsPerMeter && I32(h, YPelsAt) == PixelsPerMeter
      && U32(h, ClrUsedAt) == 0 && U32(h, ClrImportantAt) == 0
  {
    var h := Header(width, height);
    var dataSize := RowPadded(width) * height;
    ReadLE16(h, TypeAt, Signature);
    ReadLE32(h, FileSizeAt, HeaderSize + dataSize);
    ReadLE16(h, Reserved1At, 0);
    ReadLE16(h, Reserved2At, 0);
    ReadLE32(h, PixelOffsetAt, HeaderSize);
    ReadLE32(h, InfoSizeAt, InfoHeaderSize);
    ReadLE32(h, WidthAt, width);
    ReadLE32(h, HeightAt, height);
    ReadLE16(h, PlanesAt, 1);
    ReadLE16(h, BitCountAt, 24);
    ReadLE32(h, CompressionAt, 0);
    ReadLE32(h, ImageSizeAt, dataSize);
    ReadLE32(h, XPelsAt, PixelsPerMeter);
    ReadLE32(h, YPelsAt, PixelsPerMeter);
    ReadLE32(h, ClrUsedAt, 0);
    ReadLE32(h, ClrImportantAt, 0);
  }

  // ---------------------------------------------------------------- pixels

  /** std::clamp(v, 0.0f, 1.0f). */
  function Clamp01(v: real): real
  {
    if v < 0.0 then 0.0 else if 1.0 < v then 1.0 else v
  }

  /** static_cast<uint8_t>(std::clamp(v, 0, 1) * 255): the product truncated, always a byte. */
  function ChannelByte(v: real): byte
  {
    var x := Clamp01(v) * 255.0;
    x.Floor
  }

  /** The byte is the clamped channel scaled to 255 and truncated: 0 at or below 0, 255 at or above 1. */
  lemma ChannelByteBounds(v: real)
    ensures ChannelByte(v) as real <= Clamp01(v) * 255.0 < ChannelByte(v) as real + 1.0
    ensures v <= 0.0 ==> ChannelByte(v) == 0
    ensures 1.0 <= v ==> ChannelByte(v) == 255
  {
  }

  /** Byte k of a pixel in the file: 0 is blue, 1 green, 2 red. */
  function PixelByte(c: Color, k: int): byte
  {
    if k == 0 then ChannelByte(c.b) else if k == 1 then ChannelByte(c.g) else ChannelByte(c.r)
  }

  /** A pixel as the file stores it: blue, green, red. */
  function Triple(c: Color): (t: seq<byte>)
    ensures |t| == 3
  {
    [ChannelByte(c.b), ChannelByte(c.g), ChannelByte(c.r)]
  }

  /** The B, G, R bytes of each pixel in turn. */
  function PixelBytes(pixels: seq<Color>): (s: seq<byte>)
    ensures |s| == 3 * |pixels|
    decreases |pixels|
  {
    if pixels == [] then [] else PixelBytes(pixels[..|pixels| - 1]) + Triple(pixels[|pixels| - 1])
  }

  /** Pixel x's bytes B, G, R stand at 3x, 3x + 1 and 3x + 2. */
  lemma {:induction false} PixelBytesAt(pixels: seq<Color>, x: int, k: int)
    requires 0 <= x < |pixels| && 0 <= k < 3
    ensures PixelBytes(pixels)[3 * x + k] == PixelByte(pixels[x], k)
    decreases |pixels|
  {
    var n := |pixels| - 1;
    var init := pixels[..n];
    assert PixelBytes(pixels) == PixelBytes(init) + Triple(pixels[n]);
    if x < n {
      PixelBytesAt(init, x, k);
      assert init[x] == pixels[x];
    }
  }

  /** Extending the pixels by one extends their bytes by its triple. */
  lemma PixelBytesSnoc(pixels: seq<Color>, x: int)
    requires 0 <= x < |pixels|
    ensures PixelBytes(pixels[..x + 1]) == PixelBytes(pixels[..x]) + Triple(pixels[x])
  {
    assert pixels[..x + 1][..x] == pixels[..x];
  }

  /** One file row: the B, G, R bytes of each pixel, then zeros up to the padded length. */
  function RowBytes(pixels: seq<Color>, rowSize: int): (s: seq<byte>)
    requires 3 * |pixels| <= rowSize
    ensures |s| == rowSize
  {
    PixelBytes(pixels) + seq(rowSize - 3 * |pixels|, _ => 0)
  }

  /** Row y of an image, left to right. */
  function ImageRow(img: Image, y: int): (row: seq<Color>)
    requires img.WellFormed() && 0 <= img.width && 0 <= y < img.height
    ensures |row| == img.width
  {
    var w := img.width;
    RowInRange(w, img.height, y);
    img.cells[y * w .. y * w + w]
  }

  /** Pixel x of row y is the cell `at(x, y)` addresses. */
  lemma ImageRowAt(img: Image, y: int, x: int)
    requires img.WellFormed() && 0 <= x < img.width && 0 <= y < img.height
    ensures 0 <= CellIndex(img.width, x, y) < |img.cells|
    ensures ImageRow(img, y)[x] == img.cells[CellIndex(img.width, x, y)]
  {
    RowInRange(img.width, img.height, y);
  }

  /** File row j: image row height - 1 - j, the rows being stored bottom to top. */
  function FileRow(img: Image, rowSize: int, j: int): (row: seq<byte>)
    requires img.WellFormed() && 0 <= img.width && 3 * img.width <= rowSize && 0 <= j < img.height
    ensures |row| == rowSize
  {
    RowBytes(ImageRow(img, img.height - 1 - j), rowSize)
  }

  /** The first k file rows, each of rowSize bytes. */
  function Rows(img: Image, rowSize: int, k: int): (s: seq<byte>)
    requires img.WellFormed() && 0 <= img.width && 3 * img.width <= rowSize && 0 <= k <= img.height
    ensures |s| == k * rowSize
    decreases k
  {
    if k == 0 then [] else Rows(img, rowSize, k - 1) + FileRow(img, rowSize, k - 1)
  }

  lemma {:induction false} RowsAt(img: Image, rowSize: int, k: int, y: int, i: int)
    requires img.WellFormed() && 0 <= img.width && 3 * img.width <= rowSize && 0 <= k <= img.height
    requires 0 <= y < k && 0 <= i < rowSize
    ensures 0 <= y * rowSize + i < |Rows(img, rowSize, k)|
    ensures Rows(img, rowSize, k)[y * rowSize + i] == FileRow(img, rowSize, y)[i]
  {
    RowIndexBounds(k, y, i, rowSize);
    var prev := Rows(img, rowSize, k - 1);
    var last := FileRow(img, rowSize, k - 1);
    assert Rows(img, rowSize, k) == prev + last;
    if y < k - 1 {
      RowsAt(img, rowSize, k - 1, y, i);
      assert (prev + last)[y * rowSize + i] == prev[y * rowSize + i];
    } else {
      assert (prev + last)[|prev| + i] == last[i];
    }
  }

  /** Byte i of row y lies in the first k rows, and in the first k - 1 unless y is the last. */
  lemma RowIndexBounds(k: int, y: int, i: int, rowSize: int)
    requires 0 <= y < k && 0 <= i < rowSize
    ensures 0 <= y * rowSize + i < k * rowSize
    ensures y < k - 1 ==> y * rowSize + i < (k - 1) * rowSize
    ensures y == k - 1 ==> y * rowSize + i == (k - 1) * rowSize + i
  {
    MulAtLeast(k - y, rowSize);
    assert (k - y) * rowSize == k * rowSize - y * rowSize;
    if y > 0 { MulAtLeast(y, rowSize); }
    if y < k - 1 {
      MulAtLeast(k - 1 - y, rowSize);
      assert (k - 1 - y) * rowSize == (k - 1) * rowSize - y * rowSize;
    }
  }

  /**
   * texture_to_bmp's output: the headers, then the rows.  The row buffer of
   * RowPadded(width) bytes cannot be allocated for widths below -1; rows exist
   * only for a positive height, which for a well-formed image forces width >= 0.
   */
  function Encode(img: Image): (res: Result<seq<byte>, BmpError>)
    requires img.WellFormed()
    ensures res.Ok? <==> -1 <= img.width
    ensures res.Err? ==> res.error == AllocationFailed
    ensures res.Ok? ==> HeaderSize <= |res.value| && res.value[..HeaderSize] == Header(img.width, img.height)
  {
    RowPaddedNonNegative(img.width);
    if RowPadded(img.width) < 0 then Err(AllocationFailed)
    else if img.height <= 0 then Ok(Header(img.width, img.height))
    else
      PositiveHeightWidth(img);
      Ok(Header(img.width, img.height) + Rows(img, RowPadded(img.width), img.height))
  }

  lemma PositiveHeightWidth(img: Image)
    requires img.WellFormed() && 0 <= RowPadded(img.width) && 0 < img.height
    ensures 0 <= img.width
  {
  }

  // ---------------------------------------------------------------- decoding

  /** color(r / 255, g / 255, b / 255) from the bytes B, G, R at offset p. */
  function DecodedPixel(file: seq<byte>, p: int): Color
    requires 0 <= p && p + 3 <= |file|
  {
    Color(file[p + 2] as real / 255.0, file[p + 1] as real / 255.0, file[p] as real / 255.0)
  }

  /** Where the decoder finds texture cell (x, y): in file row height - 1 - y after the seek to `offset`. */
  function PixelOffset(offset: int, rowSize: int, height: int, x: int, y: int): int
  {
    offset + (height - 1 - y) * rowSize + 3 * x
  }

  /** One past the last byte the decoder uses from the first n file rows: the pixels of row n - 1, not its padding. */
  function RowsEnd(width: int, offset: int, rowSize: int, n: int): int
  {
    offset + (n - 1) * rowSize + 3 * width
  }

  predicate RowsFit(file: seq<byte>, width: int, height: int, offset: int, rowSize: int)
  {
    0 < width && 0 < height && 3 * width <= rowSize && 0 <= offset && RowsEnd(width, offset, rowSize, height) <= |file|
  }

  /** The first n file rows after `offset` are in the file (vacuous when nothing is read: n = 0 or width = 0). */
  predicate RowsRead(file: seq<byte>, width: int, height: int, offset: int, rowSize: int, n: int)
  {
    0 <= width && 3 * width <= rowSize && 0 <= offset && 0 <= n <= height
    && (0 < n && 0 < width ==> RowsEnd(width, offset, rowSize, n) <= |file|)
  }

  /** Texture row y is file row height - 1 - y; once n file rows are read its pixels lie inside the file. */
  lemma PixelOffsetInFile(file: seq<byte>, width: int, height: int, offset: int, rowSize: int, n: int, x: int, y: int)
    requires RowsRead(file, width, height, offset, rowSize, n)
    requires 0 <= x < width && height - n <= y < height
    ensures offset <= PixelOffset(offset, rowSize, height, x, y)
    ensures PixelOffset(offset, rowSize, height, x, y) + 3 <= |file|
  {
    var j := height - 1 - y;
    assert 0 <= j * rowSize by { MulAtLeast(1, rowSize); if j > 0 { MulAtLeast(j, rowSize); } }
    assert j * rowSize <= (n - 1) * rowSize by {
      assert (n - 1) * rowSize - j * rowSize == (n - 1 - j) * rowSize;
      if n - 1 - j > 0 { MulAtLeast(n - 1 - j, rowSize); }
    }
  }

  /** Cell i once n file rows are read: decoded from the file if its row is among them, black as allocated otherwise. */
  function DecodedCell(file: seq<byte>, width: int, height: int, offset: int, rowSize: int, n: int, i: int): Color
    requires RowsRead(file, width, height, offset, rowSize, n)
    requires 0 <= i < width * height
  {
    CellCoordinates(width, height, i);
    var x, y := i % width, i / width;
    if height - 1 - y < n then
      PixelOffsetInFile(file, width, height, offset, rowSize, n, x, y);
      DecodedPixel(file, PixelOffset(offset, rowSize, height, x, y))
    else Black
  }

  /** The texture's cells after the decoder has read n file rows. */
  function RowsDecoded(file: seq<byte>, width: int, height: int, offset: int, rowSize: int, n: int): (cells: seq<Color>)
    requires RowsRead(file, width, height, offset, rowSize, n)
    ensures |cells| == width * height
  {
    seq(width * height, i requires 0 <= i < width * height => DecodedCell(file, width, height, offset, rowSize, n, i))
  }

  /**
   * The texture the decoder returns: new texture(w, h) is black, and when both
   * dimensions are positive every row is then read from the file.
   */
  function DecodedCells(file: seq<byte>, width: int, height: int, offset: int, rowSize: int): (cells: seq<Color>)
    requires 0 <= width * height
    requires 0 < width && 0 < height ==> RowsFit(file, width, height, offset, rowSize)
    ensures |cells| == width * height
  {
    if width <= 0 || height <= 0 then seq(width * height, _ => Black)
    else RowsDecoded(file, width, height, offset, rowSize, height)
  }

  /**
   * bmp_to_texture: check the header, allocate, read each row from bfOffBits on.
   * bfSize and biSizeImage are not consulted.
   */
  function Decode(file: seq<byte>): (res: Result<Image, BmpError>)
    ensures res.Ok? ==> res.value.WellFormed()
  {
    if |file| < HeaderSize then Err(Truncated)
    else if U16(file, TypeAt) != Signature then Err(NotBmp)
    else if U16(file, BitCountAt) != 24 || U32(file, CompressionAt) != 0 then Err(Unsupported)
    else
      var w := I32(file, WidthAt);
      var h := I32(file, HeightAt);
      var rp := RowPadded(w);
      var offset := U32(file, PixelOffsetAt);
      if w * h < 0 || rp < 0 then Err(AllocationFailed)
      else if 0 < w && 0 < h && RowsEnd(w, offset, rp, h) > |file| then Err(Truncated)
      else
        Ok(Image(w, h, DecodedCells(file, w, h, offset, rp)))
  }

  // ---------------------------------------------------------------- properties

  /** A decoded channel: the byte scaled back into [0, 1]. */
  function Quantize(c: Color): Color
  {
    Color(ChannelByte(c.r) as real / 255.0, ChannelByte(c.g) as real / 255.0, ChannelByte(c.b) as real / 255.0)
  }

  function Quantized(cells: seq<Color>): (q: seq<Color>)
    ensures |q| == |cells|
  {
    seq(|cells|, i requires 0 <= i < |cells| => Quantize(cells[i]))
  }

  /** A byte read back as b / 255 is written out again as b. */
  lemma ChannelByteOfDecoded(b: byte)
    ensures ChannelByte(b as real / 255.0) == b
  {
    var v := b as real / 255.0;
    assert 0.0 <= v <= 1.0;
    assert Clamp01(v) * 255.0 == b as real;
  }

  lemma ReadPrefix(s: seq<byte>, h: seq<byte>)
    requires |h| <= |s| && s[..|h|] == h
    ensures forall at :: 0 <= at && at + 2 <= |h| ==> U16(s, at) == U16(h, at)
    ensures forall at :: 0 <= at && at + 4 <= |h| ==> U32(s, at) == U32(h, at) && I32(s, at) == I32(h, at)
  {
    forall at | 0 <= at && at + 4 <= |h|
      ensures U32(s, at) == U32(h, at)
    {
      assert s[at] == h[at] && s[at + 1] == h[at + 1] && s[at + 2] == h[at + 2] && s[at + 3] == h[at + 3];
    }
    forall at | 0 <= at && at + 2 <= |h|
      ensures U16(s, at) == U16(h, at)
    {
      assert s[at] == h[at] && s[at + 1] == h[at + 1];
    }
  }

  /**
   * The encoder's header: bfType "BM", bfSize the file length, bfOffBits 54,
   * biSize 40, biWidth and biHeight the texture's dimensions, one plane, 24 bits
   * per pixel, no compression, biSizeImage RowPadded(width) * height.
   */
  lemma {:induction false} EncodeHeader(img: Image)
    requires img.WellFormed()
    requires 0 <= img.width < 0x8000_0000 && 0 <= img.height < 0x8000_0000
    ensures Encode(img).Ok?
    ensures var file := Encode(img).value; var dataSize := RowPadded(img.width) * img.height;
      && |file| == HeaderSize + dataSize
      && U16(file, TypeAt) == Signature
      && U32(file, FileSizeAt) == |file| % Two32
      && U32(file, PixelOffsetAt) == HeaderSize
      && U32(file, InfoSizeAt) == InfoHeaderSize
      && I32(file, WidthAt) == img.width && I32(file, HeightAt) == img.height
      && U16(file, PlanesAt) == 1 && U16(file, BitCountAt) == 24
      && U32(file, CompressionAt) == 0
      && U32(file, ImageSizeAt) == dataSize % Two32
  {
    EncodeLength(img);
    var file := Encode(img).value;
    var hd := Header(img.width, img.height);
    assert file[..HeaderSize] == hd;
    HeaderFields(img.width, img.height);
    ReadPrefix(file, hd);
  }

  /** The file is the headers and RowPadded(width) bytes for each of the height rows. */
  lemma EncodeLength(img: Image)
    requires img.WellFormed() && 0 <= img.width && 0 <= img.height
    ensures Encode(img).Ok?
    ensures |Encode(img).value| == HeaderSize + RowPadded(img.width) * img.height
  {
    if 0 < img.height {
      var rp := RowPadded(img.width);
      assert |Rows(img, rp, img.height)| == img.height * rp;
      assert img.height * rp == rp * img.height;
    }
  }

  /** For a positive height the file is exactly the headers followed by the rows. */
  lemma EncodeShape(img: Image)
    requires img.WellFormed() && 0 <= img.width && 0 < img.height
    ensures Encode(img) == Ok(Header(img.width, img.height) + Rows(img, RowPadded(img.width), img.height))
  {
  }

  /** Byte k of pixel x in file row y, the row length rowSize being RowPadded(width). */
  lemma EncodeByte(img: Image, rowSize: int, y: int, x: int, k: int)
    requires img.WellFormed() && rowSize == RowPadded(img.width)
    requires 0 <= x < img.width && 0 <= y < img.height && 0 <= k < 3
    ensures Encode(img).Ok?
    ensures var file := Encode(img).value; var p := HeaderSize + y * rowSize + 3 * x + k;
      0 <= p < |file| && file[p] == PixelByte(ImageRow(img, img.height - 1 - y)[x], k)
  {
    EncodeShape(img);
    HeadedRowsByte(Header(img.width, img.height), img, rowSize, y, x, k);
    FileRowPixel(img, rowSize, y, x, k);
  }

  lemma HeadedRowsByte(hd: seq<byte>, img: Image, rowSize: int, y: int, x: int, k: int)
    requires img.WellFormed() && 0 <= img.width && 3 * img.width <= rowSize && |hd| == HeaderSize
    requires 0 <= x < img.width && 0 <= y < img.height && 0 <= k < 3
    ensures var file := hd + Rows(img, rowSize, img.height); var p := HeaderSize + y * rowSize + 3 * x + k;
      0 <= p < |file| && file[p] == FileRow(img, rowSize, y)[3 * x + k]
  {
    var rows := Rows(img, rowSize, img.height);
    RowsAt(img, rowSize, img.height, y, 3 * x + k);
    assert (hd + rows)[HeaderSize + (y * rowSize + 3 * x + k)] == rows[y * rowSize + 3 * x + k];
  }

  /** File row y holds image row height - 1 - y: pixel x's bytes B, G, R at 3x, 3x + 1, 3x + 2. */
  lemma EncodePixel(img: Image, y: int, x: int)
    requires img.WellFormed() && 0 <= x < img.width && 0 <= y < img.height
    ensures Encode(img).Ok?
    ensures var file := Encode(img).value; var p := HeaderSize + y * RowPadded(img.width) + 3 * x;
      var c := ImageRow(img, img.height - 1 - y)[x];
      && 0 <= p && p + 3 <= |file|
      && file[p] == ChannelByte(c.b) && file[p + 1] == ChannelByte(c.g) && file[p + 2] == ChannelByte(c.r)
  {
    var rp := RowPadded(img.width);
    EncodeByte(img, rp, y, x, 0);
    EncodeByte(img, rp, y, x, 1);
    EncodeByte(img, rp, y, x, 2);
  }

  lemma FileRowPixel(img: Image, rowSize: int, y: int, x: int, k: int)
    requires img.WellFormed() && 0 <= img.width && 3 * img.width <= rowSize && 0 <= y < img.height
    requires 0 <= x < img.width && 0 <= k < 3
    ensures FileRow(img, rowSize, y)[3 * x + k] == PixelByte(ImageRow(img, img.height - 1 - y)[x], k)
  {
    PixelBytesAt(ImageRow(img, img.height - 1 - y), x, k);
  }

  /** The bytes between 3 * width and the padded row length are zero. */
  lemma {:induction false} EncodePadding(img: Image, y: int, i: int)
    requires img.WellFormed() && 0 <= img.width && 0 <= y < img.height
    requires 3 * img.width <= i < RowPadded(img.width)
    ensures Encode(img).Ok?
    ensures var file := Encode(img).value; var p := HeaderSize + y * RowPadded(img.width) + i;
      0 <= p < |file| && file[p] == 0
  {
    var rp := RowPadded(img.width);
    EncodeShape(img);
    var file := Encode(img).value;
    var rows := Rows(img, rp, img.height);
    RowsAt(img, rp, img.height, y, i);
    assert file[HeaderSize + y * rp + i] == rows[y * rp + i];
  }

  /** Decoding what the encoder wrote restores the dimensions and every pixel up to 8-bit quantisation. */
  lemma {:induction false} RoundTrip(img: Image)
    requires img.WellFormed()
    requires 0 <= img.width < 0x8000_0000 && 0 <= img.height < 0x8000_0000
    ensures Encode(img).Ok?
    ensures Decode(Encode(img).value) == Ok(Image(img.width, img.height, Quantized(img.cells)))
  {
    EncodeHeader(img);
    var file := Encode(img).value;
    var w, h, rp := img.width, img.height, RowPadded(img.width);
    var cells := DecodedCells(file, w, h, HeaderSize, rp);
    assert Decode(file) == Ok(Image(w, h, cells));
    DecodedQuantized(img, file);
  }

  /** The cells the decoder reads from the encoder's file are the image's cells, quantised. */
  lemma DecodedQuantized(img: Image, file: seq<byte>)
    requires img.WellFormed() && 0 <= img.width && 0 <= img.height
    requires Encode(img) == Ok(file) && |file| == HeaderSize + RowPadded(img.width) * img.height
    ensures 0 < img.width && 0 < img.height ==> RowsFit(file, img.width, img.height, HeaderSize, RowPadded(img.width))
    ensures DecodedCells(file, img.width, img.height, HeaderSize, RowPadded(img.width)) == Quantized(img.cells)
  {
    var w, h, rp := img.width, img.height, RowPadded(img.width);
    if 0 < w && 0 < h {
      assert h * rp == rp * h;
      var cells := RowsDecoded(file, w, h, HeaderSize, rp, h);
      forall i | 0 <= i < w * h
        ensures cells[i] == Quantized(img.cells)[i]
      {
        RoundTripCell(img, file, rp, i);
      }
    } else {
      assert w * h == 0;
    }
  }

  /** One cell of the round trip: the decoder reads back the three bytes the encoder wrote for it. */
  lemma RoundTripCell(img: Image, file: seq<byte>, rowSize: int, i: int)
    requires img.WellFormed() && 0 < img.width && 0 < img.height && rowSize == RowPadded(img.width)
    requires Encode(img) == Ok(file) && |file| == HeaderSize + rowSize * img.height
    requires 0 <= i < img.width * img.height
    ensures RowsRead(file, img.width, img.height, HeaderSize, rowSize, img.height)
    ensures DecodedCell(file, img.width, img.height, HeaderSize, rowSize, img.height, i) == Quantize(img.cells[i])
  {
    var w, h := img.width, img.height;
    CellCoordinates(w, h, i);
    var x, y := i % w, i / w;
    EncodeByte(img, rowSize, h - 1 - y, x, 0);
    EncodeByte(img, rowSize, h - 1 - y, x, 1);
    EncodeByte(img, rowSize, h - 1 - y, x, 2);
    assert PixelOffset(HeaderSize, rowSize, h, x, y) == HeaderSize + (h - 1 - y) * rowSize + 3 * x;
    ImageRowAt(img, y, x);
  }

  lemma {:induction false} PixelBytesOfQuantized(pixels: seq<Color>)
    ensures PixelBytes(Quantized(pixels)) == PixelBytes(pixels)
    decreases |pixels|
  {
    if pixels != [] {
      var n := |pixels| - 1;
      var c := pixels[n];
      PixelBytesOfQuantized(pixels[..n]);
      assert Quantized(pixels)[..n] == Quantized(pixels[..n]);
      ChannelByteOfDecoded(ChannelByte(c.r));
      ChannelByteOfDecoded(ChannelByte(c.g));
      ChannelByteOfDecoded(ChannelByte(c.b));
      assert Triple(Quantize(c)) == Triple(c);
    }
  }

  /** A row of the quantised image is the quantised row. */
  lemma ImageRowOfQuantized(img: Image, y: int)
    requires img.WellFormed() && 0 <= img.width && 0 <= y < img.height
    ensures ImageRow(Image(img.width, img.height, Quantized(img.cells)), y) == Quantized(ImageRow(img, y))
  {
    var q := Image(img.width, img.height, Quantized(img.cells));
    forall x | 0 <= x < img.width
      ensures ImageRow(q, y)[x] == Quantized(ImageRow(img, y))[x]
    {
      ImageRowAt(img, y, x);
      ImageRowAt(q, y, x);
    }
  }

  lemma {:induction false} RowsOfQuantized(img: Image, rowSize: int, k: int)
    requires img.WellFormed() && 0 <= img.width && 3 * img.width <= rowSize && 0 <= k <= img.height
    ensures Rows(Image(img.width, img.height, Quantized(img.cells)), rowSize, k) == Rows(img, rowSize, k)
  {
    var q := Image(img.width, img.height, Quantized(img.cells));
    if k > 0 {
      RowsOfQuantized(img, rowSize, k - 1);
      ImageRowOfQuantized(img, img.height - k);
      PixelBytesOfQuantized(ImageRow(img, img.height - k));
      assert FileRow(q, rowSize, k - 1) == FileRow(img, rowSize, k - 1);
    }
  }

  /** Encoding the decoded texture writes the same file again, byte for byte. */
  lemma {:induction false} ReencodeIsIdentity(img: Image)
    requires img.WellFormed()
    requires 0 <= img.width < 0x8000_0000 && 0 <= img.height < 0x8000_0000
    ensures Encode(img).Ok?
    ensures Decode(Encode(img).value).Ok?
    ensures Encode(Decode(Encode(img).value).value) == Encode(img)
  {
    RoundTrip(img);
    if 0 < img.height {
      RowsOfQuantized(img, RowPadded(img.width), img.height);
    }
  }

  /** The signature is checked first once the headers are there: a wrong one and only a wrong one gives NotBmp. */
  lemma DecodeSignature(file: seq<byte>)
    requires HeaderSize <= |file|
    ensures Decode(file) == Err(NotBmp) <==> U16(file, TypeAt) != Signature
  {
  }

  /** With a good signature, any bit count but 24 or any compression but 0 gives Unsupported. */
  lemma DecodeFormat(file: seq<byte>)
    requires HeaderSize <= |file| && U16(file, TypeAt) == Signature
    ensures Decode(file) == Err(Unsupported) <==> (U16(file, BitCountAt) != 24 || U32(file, CompressionAt) != 0)
  {
  }

  /** A decoded texture has the header's dimensions and came from a file that passed every check. */
  lemma DecodeAccepted(file: seq<byte>)
    requires Decode(file).Ok?
    ensures HeaderSize <= |file| && U16(file, TypeAt) == Signature
    ensures U16(file, BitCountAt) == 24 && U32(file, CompressionAt) == 0
    ensures Decode(file).value.width == I32(file, WidthAt) && Decode(file).value.height == I32(file, HeightAt)
  {
  }

  /**
   * Cell (x, y) of a decoded texture comes from the B, G, R bytes at
   * bfOffBits + (height - 1 - y) * rowSize + 3x.
   */
  lemma DecodePixel(file: seq<byte>, x: int, y: int)
    requires Decode(file).Ok?
    requires 0 <= x < Decode(file).value.width && 0 <= y < Decode(file).value.height
    ensures var img := Decode(file).value; var rp := RowPadded(img.width);
      var p := PixelOffset(U32(file, PixelOffsetAt), rp, img.height, x, y);
      && 0 <= p && p + 3 <= |file|
      && 0 <= CellIndex(img.width, x, y) < |img.cells|
      && img.cells[CellIndex(img.width, x, y)] == DecodedPixel(file, p)
  {
    var img := Decode(file).value;
    var rp := RowPadded(img.width);
    var offset := U32(file, PixelOffsetAt);
    CellIndexInRange(img.width, img.height, x, y);
    var i := CellIndex(img.width, x, y);
    CellCoordinates(img.width, img.height, i);
    assert i % img.width == x && i / img.width == y by {
      CellIndexInjective(img.width, img.height, x, y, i % img.width, i / img.width);
    }
    PixelOffsetInFile(file, img.width, img.height, offset, rp, img.height, x, y);
  }

  /** bfSize and biSizeImage are never consulted: files that differ only there decode alike. */
  lemma DecodeIgnoresSizeFields(file: seq<byte>, other: seq<byte>)
    requires |file| == |other| && HeaderSize <= |file|
    requires forall i :: 0 <= i < |file| && !(FileSizeAt <= i < FileSizeAt + 4) && !(ImageSizeAt <= i < ImageSizeAt + 4) ==> file[i] == other[i]
    requires HeaderSize <= U32(file, PixelOffsetAt)
    ensures Decode(file) == Decode(other)
  {
    assert U16(file, TypeAt) == U16(other, TypeAt);
    assert U16(file, BitCountAt) == U16(other, BitCountAt);
    assert U32(file, CompressionAt) == U32(other, CompressionAt);
    assert U32(file, PixelOffsetAt) == U32(other, PixelOffsetAt);
    assert U32(file, WidthAt) == U32(other, WidthAt);
    assert U32(file, HeightAt) == U32(other, HeightAt);
    if Decode(file).Ok? {
      var w, h := I32(file, WidthAt), I32(file, HeightAt);
      var offset, rp := U32(file, PixelOffsetAt), RowPadded(w);
      if 0 < w && 0 < h {
        forall i | 0 <= i < w * h
          ensures DecodedCell(file, w, h, offset, rp, h, i) == DecodedCell(other, w, h, offset, rp, h, i)
        {
          CellCoordinates(w, h, i);
          PixelOffsetInFile(file, w, h, offset, rp, h, i % w, i / w);
        }
        assert DecodedCells(file, w, h, offset, rp) == DecodedCells(other, w, h, offset, rp);
      }
    }
  }

  /**
   * Nothing after the last row's pixel bytes is read: cutting the file there,
   * for instance dropping the last row's padding, decodes alike.
   */
  lemma DecodeStopsAtLastPixel(file: seq<byte>, n: int)
    requires Decode(file).Ok? && 0 < Decode(file).value.width && 0 < Decode(file).value.height
    requires HeaderSize <= n <= |file|
    requires RowsEnd(Decode(file).value.width, U32(file, PixelOffsetAt), RowPadded(Decode(file).value.width), Decode(file).value.height) <= n
    ensures Decode(file[..n]) == Decode(file)
  {
    var other := file[..n];
    assert U16(file, TypeAt) == U16(other, TypeAt);
    assert U16(file, BitCountAt) == U16(other, BitCountAt);
    assert U32(file, CompressionAt) == U32(other, CompressionAt);
    assert U32(file, PixelOffsetAt) == U32(other, PixelOffsetAt);
    assert U32(file, WidthAt) == U32(other, WidthAt);
    assert U32(file, HeightAt) == U32(other, HeightAt);
    var w, h := I32(file, WidthAt), I32(file, HeightAt);
    var offset, rp := U32(file, PixelOffsetAt), RowPadded(w);
    forall i | 0 <= i < w * h
      ensures DecodedCell(file, w, h, offset, rp, h, i) == DecodedCell(other, w, h, offset, rp, h, i)
    {
      CellCoordinates(w, h, i);
      PixelOffsetInFile(other, w, h, offset, rp, h, i % w, i / w);
    }
    assert DecodedCells(file, w, h, offset, rp) == DecodedCells(other, w, h, offset, rp);
  }

  /** A 1×1 image's 58-byte file still decodes, to the quantised pixel, without its one padding byte. */
  lemma SinglePixelWithoutPadding(c: Color)
    ensures Encode(Image(1, 1, [c])).Ok?
    ensures var file := Encode(Image(1, 1, [c])).value;
      |file| == 58 && Decode(file[..57]) == Ok(Image(1, 1, [Quantize(c)]))
  {
    var img := Image(1, 1, [c]);
    EncodeHeader(img);
    RoundTrip(img);
    var file := Encode(img).value;
    assert RowPadded(1) == 4;
    DecodeStopsAtLastPixel(file, 57);
    assert Quantized([c]) == [Quantize(c)];
  }
}
