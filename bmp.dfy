/**
 * texture_to_bmp and bmp_to_texture of include/systems/image/bmp.hpp as the
 * step-by-step procedures they are: a row buffer refilled for every file row,
 * rows appended to the output one after another, and a decoder that writes the
 * texture cell by cell through `at`.  The file is a byte sequence: the output
 * stream is the sequence built so far, the input stream a read position in it.
 * Each procedure is proved to compute the corresponding function of BmpFormat.
 */
module Bmp {
  import opened Colors
  import opened Wrappers
  import opened Textures
  import opened BmpFormat

  /** One pass of the x loop and the padding loop: the buffer then holds file row j of the texture. */
  method FillRow(tex: Texture, ghost img: Image, row: array<byte>, j: int)
    requires tex.Valid() && img == tex.View() && 0 <= tex.width && 0 <= j < tex.height
    requires 3 * tex.width <= row.Length
    modifies row
    ensures row[..] == FileRow(img, row.Length, j)
  {
    var width := tex.width;
    ghost var pixels := ImageRow(img, tex.height - 1 - j);
    FillPixels(tex, img, row, j);
    for i := width * 3 to row.Length
      invariant row[..3 * width] == PixelBytes(pixels)
      invariant forall k :: 3 * width <= k < i ==> row[k] == 0
    {
      ghost var done := row[..3 * width];
      row[i] := 0;
      assert row[..3 * width] == done;
    }
    FilledRow(row[..], PixelBytes(pixels));
  }

  /** The x loop: the buffer starts with the B, G, R bytes of texture row height - 1 - j. */
  method FillPixels(tex: Texture, ghost img: Image, row: array<byte>, j: int)
    requires tex.Valid() && img == tex.View() && 0 <= tex.width && 0 <= j < tex.height
    requires 3 * tex.width <= row.Length
    modifies row
    ensures row[..3 * tex.width] == PixelBytes(ImageRow(img, tex.height - 1 - j))
  {
    ghost var pixels := ImageRow(img, tex.height - 1 - j);
    for x := 0 to tex.width
      invariant row[..3 * x] == PixelBytes(pixels[..x])
    {
      FillPixel(tex, img, row, j, x);
    }
    assert pixels[..tex.width] == pixels;
  }

  /** One pass of the x loop: pixel x of texture row height - 1 - j goes to bytes 3x to 3x + 2 as B, G, R. */
  method FillPixel(tex: Texture, ghost img: Image, row: array<byte>, j: int, x: int)
    requires tex.Valid() && img == tex.View() && 0 <= j < tex.height && 0 <= x < tex.width
    requires 3 * tex.width <= row.Length
    requires row[..3 * x] == PixelBytes(ImageRow(img, tex.height - 1 - j)[..x])
    modifies row
    ensures row[..3 * x + 3] == PixelBytes(ImageRow(img, tex.height - 1 - j)[..x + 1])
  {
    var height := tex.height;
    ghost var pixels := ImageRow(img, height - 1 - j);
    var c := tex.At(x, height - j - 1);
    ImageRowAt(img, height - 1 - j, x);
    ghost var done := row[..3 * x];
    row[x * 3 + 0] := ChannelByte(c.b);
    row[x * 3 + 1] := ChannelByte(c.g);
    row[x * 3 + 2] := ChannelByte(c.r);
    assert row[..3 * x + 3] == done + Triple(c);
    PixelBytesSnoc(pixels, x);
  }

  /** A buffer that starts with `prefix` and holds zeros after it is `prefix` padded with zeros. */
  lemma FilledRow(row: seq<byte>, prefix: seq<byte>)
    requires |prefix| <= |row| && row[..|prefix|] == prefix
    requires forall k :: |prefix| <= k < |row| ==> row[k] == 0
    ensures row == prefix + seq(|row| - |prefix|, _ => 0)
  {
    var n := |prefix|;
    var pad: seq<byte> := seq(|row| - n, _ => 0);
    forall k | 0 <= k < |pad|
      ensures row[n..][k] == pad[k]
    {
      assert row[n..][k] == row[n + k];
    }
    assert row == row[..n] + row[n..];
  }

  /**
   * texture_to_bmp without the file: the two headers are written, then the
   * row buffer of RowPadded(width) bytes is allocated, refilled and appended
   * once per file row.
   */
  method TextureToBmp(tex: Texture) returns (res: Result<seq<byte>, BmpError>)
    requires tex.Valid()
    ensures res == Encode(tex.View())
  {
    ghost var img := tex.View();
    var width, height := tex.width, tex.height;
    var rowPadded := RowPadded(width);
    var file := Header(width, height);
    if rowPadded < 0 {
      return Err(AllocationFailed);
    }
    var row := new byte[rowPadded];
    if 0 < height {
      PositiveHeightWidth(img);
      file := WriteRows(tex, img, row, file);
      EncodeShape(img);
    }
    return Ok(file);
  }

  /** The row loop of texture_to_bmp: file row y is built in the buffer and appended, for y from 0 to height - 1. */
  method WriteRows(tex: Texture, ghost img: Image, row: array<byte>, header: seq<byte>) returns (file: seq<byte>)
    requires tex.Valid() && img == tex.View() && 0 <= tex.width && 0 < tex.height
    requires 3 * tex.width <= row.Length
    modifies row
    ensures file == header + Rows(img, row.Length, tex.height)
  {
    file := header;
    var y := 0;
    while y < tex.height
      invariant 0 <= y <= tex.height
      invariant file == (if y == 0 then header else header + Rows(img, row.Length, y))
    {
      FillRow(tex, img, row, y);
      AppendRow(header, img, row.Length, y);
      file := file + row[..];
      y := y + 1;
    }
  }

  /** Appending file row y to the headers and the first y rows gives the headers and the first y + 1 rows. */
  lemma AppendRow(header: seq<byte>, img: Image, rowSize: int, y: int)
    requires img.WellFormed() && 0 <= img.width && 3 * img.width <= rowSize && 0 <= y < img.height
    ensures (if y == 0 then header else header + Rows(img, rowSize, y)) + FileRow(img, rowSize, y)
      == header + Rows(img, rowSize, y + 1)
  {
    if y == 0 {
      assert Rows(img, rowSize, 1) == [] + FileRow(img, rowSize, 0);
    }
  }

  /** What reading n bytes at position pos obtains: n bytes, or fewer at the end of the file. */
  function ReadAt(file: seq<byte>, pos: int, n: int): (got: seq<byte>)
    requires 0 <= pos && 0 <= n
    ensures |got| <= n
    ensures |got| == n <==> n == 0 || pos + n <= |file|
    ensures 0 < n && |got| == n ==> got == file[pos .. pos + n]
    ensures |got| < n ==> |got| == if pos < |file| then |file| - pos else 0
    ensures pos + |got| <= |file| ==> got == file[pos .. pos + |got|]
  {
    if pos + n <= |file| then file[pos .. pos + n] else if pos < |file| then file[pos..] else []
  }

  /** Cell i while the x loop of file row y stands at x: decoded once its pixel has been read. */
  ghost function RowProgress(file: seq<byte>, width: int, height: int, offset: int, rowSize: int, y: int, x: int, i: int): Color
    requires RowsRead(file, width, height, offset, rowSize, y + 1) && 0 <= y
    requires 0 <= i < width * height
  {
    CellCoordinates(width, height, i);
    RowsReadFewer(file, width, height, offset, rowSize, y);
    if i / width == height - 1 - y && i % width < x then DecodedCell(file, width, height, offset, rowSize, y + 1, i)
    else DecodedCell(file, width, height, offset, rowSize, y, i)
  }

  lemma RowsReadFewer(file: seq<byte>, width: int, height: int, offset: int, rowSize: int, n: int)
    requires RowsRead(file, width, height, offset, rowSize, n + 1) && 0 <= n
    ensures RowsRead(file, width, height, offset, rowSize, n)
  {
    assert (n - 1) * rowSize <= n * rowSize;
  }

  /** Cell i is the one `at(x, y)` addresses exactly when its column is x and its row y. */
  lemma CellOf(width: int, height: int, i: int, x: int, y: int)
    requires 0 <= i < width * height && 0 <= x < width && 0 <= y < height
    ensures i == CellIndex(width, x, y) <==> i % width == x && i / width == y
  {
    CellCoordinates(width, height, i);
    if i == CellIndex(width, x, y) {
      CellIndexInjective(width, height, x, y, i % width, i / width);
    }
  }

  /** Before the x loop of file row y, the cells are those after y rows. */
  lemma ProgressStart(cells: seq<Color>, file: seq<byte>, width: int, height: int, offset: int, rowSize: int, y: int)
    requires RowsRead(file, width, height, offset, rowSize, y + 1) && 0 <= y
    requires RowsRead(file, width, height, offset, rowSize, y)
    requires cells == RowsDecoded(file, width, height, offset, rowSize, y)
    ensures forall i :: 0 <= i < width * height ==> cells[i] == RowProgress(file, width, height, offset, rowSize, y, 0, i)
  {
    forall i | 0 <= i < width * height
      ensures cells[i] == RowProgress(file, width, height, offset, rowSize, y, 0, i)
    {
      CellCoordinates(width, height, i);
    }
  }

  /** Storing pixel x of file row y at (x, height - 1 - y) advances the x loop by one. */
  lemma ProgressStep(cells: seq<Color>, file: seq<byte>, width: int, height: int, offset: int, rowSize: int, y: int, x: int, pos: int, c: Color)
    requires RowsRead(file, width, height, offset, rowSize, y + 1) && 0 <= y && 0 <= x < width
    requires |cells| == width * height
    requires forall i :: 0 <= i < width * height ==> cells[i] == RowProgress(file, width, height, offset, rowSize, y, x, i)
    requires pos == offset + y * rowSize && pos + 3 * x + 3 <= |file|
    requires c == DecodedPixel(file, pos + 3 * x)
    ensures 0 <= CellIndex(width, x, height - 1 - y) < |cells|
    ensures var cells' := cells[CellIndex(width, x, height - 1 - y) := c];
      forall i :: 0 <= i < width * height ==> cells'[i] == RowProgress(file, width, height, offset, rowSize, y, x + 1, i)
  {
    CellIndexInRange(width, height, x, height - 1 - y);
    assert PixelOffset(offset, rowSize, height, x, height - 1 - y) == pos + 3 * x;
    var cells' := cells[CellIndex(width, x, height - 1 - y) := c];
    forall i | 0 <= i < width * height
      ensures cells'[i] == RowProgress(file, width, height, offset, rowSize, y, x + 1, i)
    {
      CellOf(width, height, i, x, height - 1 - y);
    }
  }

  /** After the x loop of file row y, the cells are those after y + 1 rows. */
  lemma ProgressEnd(cells: seq<Color>, file: seq<byte>, width: int, height: int, offset: int, rowSize: int, y: int)
    requires RowsRead(file, width, height, offset, rowSize, y + 1) && 0 <= y
    requires |cells| == width * height
    requires forall i :: 0 <= i < width * height ==> cells[i] == RowProgress(file, width, height, offset, rowSize, y, width, i)
    ensures cells == RowsDecoded(file, width, height, offset, rowSize, y + 1)
  {
    forall i | 0 <= i < width * height
      ensures cells[i] == RowsDecoded(file, width, height, offset, rowSize, y + 1)[i]
    {
      CellCoordinates(width, height, i);
    }
  }

  /** The x loop of file row y stands at x: the texture holds the cells RowProgress describes. */
  ghost predicate RowInProgress(tex: Texture, file: seq<byte>, offset: int, rowSize: int, y: int, x: int)
    reads tex, tex.pixels
  {
    tex.Valid() && 0 <= y && RowsRead(file, tex.width, tex.height, offset, rowSize, y + 1)
    && |tex.Cells()| == tex.width * tex.height
    && forall i :: 0 <= i < tex.width * tex.height ==> tex.Cells()[i] == RowProgress(file, tex.width, tex.height, offset, rowSize, y, x, i)
  }

  /** The x loop of bmp_to_texture for file row y: texture row height - 1 - y is decoded from `row`. */
  method ReadRow(tex: Texture, row: seq<byte>, ghost file: seq<byte>, ghost offset: int, rowSize: int, pos: int, y: int)
    requires tex.Valid() && 0 <= y && |row| == rowSize
    requires RowsRead(file, tex.width, tex.height, offset, rowSize, y + 1)
    requires pos == offset + y * rowSize
    requires 0 < tex.width ==> pos + 3 * tex.width <= |file|
    requires forall k :: 0 <= k < 3 * tex.width ==> row[k] == file[pos + k]
    requires tex.Cells() == RowsDecoded(file, tex.width, tex.height, offset, rowSize, y)
    modifies tex.pixels
    ensures tex.Valid() && tex.Cells() == RowsDecoded(file, tex.width, tex.height, offset, rowSize, y + 1)
  {
    var width, height := tex.width, tex.height;
    RowsReadFewer(file, width, height, offset, rowSize, y);
    ProgressStart(tex.Cells(), file, width, height, offset, rowSize, y);
    for x := 0 to width
      invariant tex.width == width && tex.height == height
      invariant RowInProgress(tex, file, offset, rowSize, y, x)
    {
      ReadPixel(tex, row, file, offset, rowSize, pos, y, x);
    }
    ProgressEnd(tex.Cells(), file, width, height, offset, rowSize, y);
  }

  /** One pass of the x loop: the bytes B, G, R of pixel x become color(r / 255, g / 255, b / 255) at (x, height - 1 - y). */
  method ReadPixel(tex: Texture, row: seq<byte>, ghost file: seq<byte>, ghost offset: int, rowSize: int, pos: int, y: int, x: int)
    requires 0 <= x < tex.width && |row| == rowSize
    requires pos == offset + y * rowSize
    requires 0 <= pos && pos + 3 * tex.width <= |file|
    requires RowInProgress(tex, file, offset, rowSize, y, x)
    requires forall k :: 0 <= k < 3 * tex.width ==> row[k] == file[pos + k]
    modifies tex.pixels
    ensures tex.width == old(tex.width) && tex.height == old(tex.height)
    ensures RowInProgress(tex, file, offset, rowSize, y, x + 1)
  {
    var width, height := tex.width, tex.height;
    var b, g, r := row[x * 3 + 0], row[x * 3 + 1], row[x * 3 + 2];
    ProgressStep(tex.Cells(), file, width, height, offset, rowSize, y, x, pos, Color(r as real / 255.0, g as real / 255.0, b as real / 255.0));
    tex.SetAt(x, height - y - 1, Color(r as real / 255.0, g as real / 255.0, b as real / 255.0));
  }

  /** A freshly allocated texture is what the decoder holds before reading any row. */
  lemma NoRowsRead(file: seq<byte>, width: int, height: int, offset: int, rowSize: int)
    requires RowsRead(file, width, height, offset, rowSize, 0)
    ensures RowsDecoded(file, width, height, offset, rowSize, 0) == seq(width * height, _ => Black)
  {
    forall i | 0 <= i < width * height
      ensures RowsDecoded(file, width, height, offset, rowSize, 0)[i] == Black
    {
      CellCoordinates(width, height, i);
    }
  }

  /** The decoder's row loop ends with the cells Decode describes. */
  lemma AllRowsRead(file: seq<byte>, width: int, height: int, offset: int, rowSize: int)
    requires 0 < height && 0 <= width && width * height >= 0
    requires RowsRead(file, width, height, offset, rowSize, height)
    ensures 0 < width ==> RowsFit(file, width, height, offset, rowSize)
    ensures DecodedCells(file, width, height, offset, rowSize) == RowsDecoded(file, width, height, offset, rowSize, height)
  {
  }

  lemma NextRow(offset: int, rowSize: int, y: int)
    ensures offset + y * rowSize + rowSize == offset + (y + 1) * rowSize
  {
  }

  lemma ShortRead(width: int, height: int, offset: int, rowSize: int, y: int, size: int)
    requires 0 <= y < height && 0 <= rowSize && offset + y * rowSize + 3 * width > size
    ensures RowsEnd(width, offset, rowSize, height) > size
  {
    assert (height - 1) * rowSize == y * rowSize + (height - 1 - y) * rowSize;
    if height - 1 - y > 0 {
      MulAtLeast(height - 1 - y, rowSize);
    }
  }

  /**
   * The row loop of bmp_to_texture: one padded row read per file row, its
   * pixels stored bottom-up, until every row is in or a read misses some of its row's pixel bytes.
   */
  method ReadRows(tex: Texture, file: seq<byte>, offset: int, rowPadded: int) returns (complete: bool)
    requires tex.Valid() && 0 <= tex.width && 0 < tex.height && rowPadded == RowPadded(tex.width)
    requires RowsRead(file, tex.width, tex.height, offset, rowPadded, 0)
    requires tex.Cells() == RowsDecoded(file, tex.width, tex.height, offset, rowPadded, 0)
    modifies tex.pixels
    ensures tex.Valid() && tex.width == old(tex.width) && tex.height == old(tex.height)
    ensures complete ==> RowsRead(file, tex.width, tex.height, offset, rowPadded, tex.height)
    ensures complete ==> tex.Cells() == RowsDecoded(file, tex.width, tex.height, offset, rowPadded, tex.height)
    ensures !complete ==> 0 < tex.width && RowsEnd(tex.width, offset, rowPadded, tex.height) > |file|
  {
    var width, height := tex.width, tex.height;
    var row: seq<byte> := seq(rowPadded, _ => 0);
    var pos := offset;
    var y := 0;
    while y < height
      invariant 0 <= y <= height && |row| == rowPadded
      invariant tex.Valid() && tex.width == width && tex.height == height
      invariant pos == offset + y * rowPadded
      invariant RowsRead(file, width, height, offset, rowPadded, y)
      invariant tex.Cells() == RowsDecoded(file, width, height, offset, rowPadded, y)
    {
      // A short read fills a prefix of the buffer; the rest keeps the previous row's bytes.
      var got := ReadAt(file, pos, rowPadded);
      row := got + row[|got|..];
      if |got| < 3 * width {
        ShortRead(width, height, offset, rowPadded, y, |file|);
        return false;
      }
      assert forall k :: 0 <= k < 3 * width ==> row[k] == got[k];
      ReadRow(tex, row, file, offset, rowPadded, pos, y);
      NextRow(offset, rowPadded, y);
      pos := pos + rowPadded;
      y := y + 1;
    }
    return true;
  }

  /**
   * bmp_to_texture without the file: read and check the headers, allocate the
   * texture and the row buffer, seek to bfOffBits, then read one padded row
   * per file row and store its pixels bottom-up.
   */
  method BmpToTexture(file: seq<byte>) returns (res: Result<Texture, BmpError>)
    ensures Decode(file).Err? ==> res == Err(Decode(file).error)
    ensures Decode(file).Ok? ==> res.Ok? && fresh(res.value) && res.value.Valid() && res.value.View() == Decode(file).value
  {
    if |file| < HeaderSize {
      return Err(Truncated);
    }
    if U16(file, TypeAt) != Signature {
      return Err(NotBmp);
    }
    if U16(file, BitCountAt) != 24 || U32(file, CompressionAt) != 0 {
      return Err(Unsupported);
    }
    var width, height := I32(file, WidthAt), I32(file, HeightAt);
    if width * height < 0 {
      return Err(AllocationFailed);
    }
    var tex := new Texture(width, height);
    var offset := U32(file, PixelOffsetAt);
    var rowPadded := RowPadded(width);
    if rowPadded < 0 {
      return Err(AllocationFailed);
    }
    if 0 < height {
      NoRowsRead(file, width, height, offset, rowPadded);
      var complete := ReadRows(tex, file, offset, rowPadded);
      if !complete {
        return Err(Truncated);
      }
      AllRowsRead(file, width, height, offset, rowPadded);
    }
    return Ok(tex);
  }
}
