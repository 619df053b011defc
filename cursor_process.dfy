/**
 * The cursor encoder (`png_to_cur`) as the step-by-step writer the source is,
 * and the scale / clamp / crop arithmetic of `resize_and_convert_cursor`.
 *
 * Image decoding and resampling belong to the imaging library and are not
 * modelled: the image the encoder reads is a parameter, and so is the 32x32
 * image the library's resize would produce from it.
 */
module CursorProcess {
  import opened CurFormat
  import opened CurLayout

  // ---------------------------------------------------------------------
  // Size normalisation

  /** The standard cursor side; larger images are resampled down to it. */
  const CursorSide: nat := 32

  /**
   * The image the encoder works on: the original when both sides are at most
   * 32, otherwise the 32x32 resample of it.
   */
  function Normalise(img: Image, resampled: Image): (r: Image)
    requires resampled.width == CursorSide && resampled.height == CursorSide
    ensures r.width <= CursorSide && r.height <= CursorSide
    ensures img.width <= CursorSide && img.height <= CursorSide ==> r == img
    ensures img.width > CursorSide || img.height > CursorSide ==> r == resampled
  {
    if img.width > CursorSide || img.height > CursorSide then resampled else img
  }

  // ---------------------------------------------------------------------
  // The encoder loops

  lemma {:induction false} RowColorSnoc(row: seq<Rgba>, x: nat)
    requires x < |row|
    ensures RowColor(row[..x + 1]) == RowColor(row[..x]) + Bgra(row[x])
  {
    if x > 0 {
      var tail := row[1..];
      assert row[..x + 1][1..] == tail[..x];
      assert row[..x][1..] == tail[..x - 1];
      RowColorSnoc(tail, x - 1);
    }
  }

  lemma AppendAssoc(a: seq<byte>, b: seq<byte>, c: seq<byte>)
    ensures (a + b) + c == a + (b + c)
  {
  }

  /** The inner colour loop: one row's pixels, left to right, appended as B, G, R, A. */
  method AppendRowColor(pixels: seq<byte>, row: seq<Rgba>) returns (out: seq<byte>)
    ensures out == pixels + RowColor(row)
  {
    out := pixels;
    var x := 0;
    while x < |row|
      invariant 0 <= x <= |row|
      invariant out == pixels + RowColor(row[..x])
    {
      var p := row[x];
      RowColorSnoc(row, x);
      out := out + [p.b, p.g, p.r, p.a];
      x := x + 1;
    }
    assert row[..x] == row;
  }

  /** The colour loop: rows from the bottom up, pixels left to right, each as B, G, R, A. */
  method EncodePixels(img: Image) returns (pixels: seq<byte>)
    requires WellFormed(img)
    ensures pixels == ColorFrom(img.rows, img.height - 1)
  {
    pixels := [];
    var y: int := img.height - 1;
    while y >= 0
      invariant -1 <= y < img.height
      invariant pixels + ColorFrom(img.rows, y) == ColorFrom(img.rows, img.height - 1)
      decreases y + 1
    {
      ghost var before := pixels;
      pixels := AppendRowColor(pixels, img.rows[y]);
      assert ColorFrom(img.rows, y) == RowColor(img.rows[y]) + ColorFrom(img.rows, y - 1);
      AppendAssoc(before, RowColor(img.rows[y]), ColorFrom(img.rows, y - 1));
      y := y - 1;
    }
  }

  /** One step of the bit loop: a transparent column ORs in its bit, any other column leaves the byte as it is. */
  lemma MaskBitsStep(row: seq<Rgba>, x: nat, n: nat)
    requires n < 8
    ensures Transparent(row, x + n) ==> MaskBits(row, x, n + 1) == MaskBits(row, x, n) | ((1 as bv8) << (7 - n))
    ensures !Transparent(row, x + n) ==> MaskBits(row, x, n + 1) == MaskBits(row, x, n)
  {
    assert 8 - (n + 1) == 7 - n;
    var v := MaskBits(row, x, n);
    assert v | 0 == v;
  }

  /** The bit loop: the mask byte for columns x..x+7, bit 7 - k set when column x + k is fully transparent. */
  method MaskByteAt(row: seq<Rgba>, x: nat) returns (byteVal: bv8)
    ensures byteVal == MaskBits(row, x, 8)
  {
    byteVal := 0;
    var bit := 0;
    while bit < 8
      invariant 0 <= bit <= 8
      invariant byteVal == MaskBits(row, x, bit)
    {
      MaskBitsStep(row, x, bit);
      if x + bit < |row| {
        var p := row[x + bit];
        if p.a == 0 {
          byteVal := byteVal | ((1 as bv8) << (7 - bit));
        }
      }
      bit := bit + 1;
    }
  }

  /** The column loop of the mask: one byte per 8 columns of the row, appended. */
  method AppendMaskRow(mask: seq<byte>, row: seq<Rgba>) returns (out: seq<byte>)
    ensures out == mask + MaskRow(row)
  {
    out := mask;
    var x := 0;
    while x < |row|
      invariant 0 <= x
      invariant mask + MaskRow(row) == out + MaskGroups(row, x)
      decreases |row| - x
    {
      var byteVal := MaskByteAt(row, x);
      out := out + [byteVal as byte];
      x := x + 8;
    }
  }

  /** The AND-mask loop: the mask rows from the bottom up. */
  method EncodeMask(img: Image) returns (mask: seq<byte>)
    requires WellFormed(img)
    ensures mask == MaskFrom(img.rows, img.height - 1)
  {
    mask := [];
    var y: int := img.height - 1;
    while y >= 0
      invariant -1 <= y < img.height
      invariant mask + MaskFrom(img.rows, y) == MaskFrom(img.rows, img.height - 1)
      decreases y + 1
    {
      ghost var before := mask;
      mask := AppendMaskRow(mask, img.rows[y]);
      assert MaskFrom(img.rows, y) == MaskRow(img.rows[y]) + MaskFrom(img.rows, y - 1);
      AppendAssoc(before, MaskRow(img.rows[y]), MaskFrom(img.rows, y - 1));
      y := y - 1;
    }
  }

  lemma PadTo4Step(n: nat, j: nat)
    requires j <= PadTo4(n)
    ensures (n + j) % 4 == 0 <==> j == PadTo4(n)
  {
  }

  /** The inner padding loop: append zeros until the length is a multiple of 4. */
  method PadToWord(s: seq<byte>) returns (padded: seq<byte>)
    ensures padded == s + Zeros(PadTo4(|s|))
  {
    padded := s;
    while |padded| % 4 != 0
      invariant |s| <= |padded| <= |s| + PadTo4(|s|)
      invariant padded == s + Zeros(|padded| - |s|)
      decreases |s| + PadTo4(|s|) - |padded|
    {
      PadTo4Step(|s|, |padded| - |s|);
      padded := padded + [0];
    }
    PadTo4Step(|s|, |padded| - |s|);
  }

  lemma PadAfterAligned(prefix: seq<byte>, row: seq<byte>)
    requires |prefix| % 4 == 0
    ensures PadTo4(|prefix + row|) == PadTo4(|row|)
    ensures (|prefix + row| + PadTo4(|row|)) % 4 == 0
  {
  }

  /** One pass of the padding loop: the chunk at i, cut short at the end of the mask. */
  lemma PadRowsChunk(mask: seq<byte>, len: nat, i: nat, end: nat)
    requires len > 0 && i < |mask| && end == (if i + len <= |mask| then i + len else |mask|)
    ensures PadRows(mask[i..], len) == mask[i..end] + Zeros(PadTo4(end - i)) + PadRows(mask[end..], len)
  {
    assert mask[i..][..end - i] == mask[i..end];
    assert mask[i..][end - i..] == mask[end..];
  }

  lemma ConcatAssoc(a: seq<byte>, b: seq<byte>, c: seq<byte>, d: seq<byte>)
    ensures (a + b + c) + d == a + (b + c + d)
  {
  }

  /** A pass that starts on a 4-byte boundary pads its chunk exactly as PadRows does and ends on one. */
  lemma PadMaskStep(mask: seq<byte>, len: nat, i: nat, end: nat, prefix: seq<byte>)
    requires len > 0 && i < |mask| && end == (if i + len <= |mask| then i + len else |mask|)
    requires |prefix| % 4 == 0
    ensures var next := prefix + mask[i..end] + Zeros(PadTo4(|prefix + mask[i..end]|));
      |next| % 4 == 0 && next + PadRows(mask[end..], len) == prefix + PadRows(mask[i..], len)
  {
    var row := mask[i..end];
    var pad := Zeros(PadTo4(|row|));
    var rest := PadRows(mask[end..], len);
    assert PadTo4(|prefix + row|) == PadTo4(|row|) && (|prefix + row| + PadTo4(|row|)) % 4 == 0 by {
      PadAfterAligned(prefix, row);
    }
    assert PadRows(mask[i..], len) == row + pad + rest by {
      PadRowsChunk(mask, len, i, end);
    }
    ConcatAssoc(prefix, row, pad, rest);
  }

  /**
   * The padding loop: take the mask in chunks of `len` bytes (a slice past the
   * end is cut short) and after each chunk append zeros until the running total
   * is a multiple of 4.
   */
  method PadMask(mask: seq<byte>, len: nat) returns (padded: seq<byte>)
    requires len > 0
    ensures padded == PadRows(mask, len)
    ensures |padded| % 4 == 0
  {
    padded := [];
    var i := 0;
    while i < |mask|
      invariant 0 <= i <= |mask|
      invariant |padded| % 4 == 0
      invariant padded + PadRows(mask[i..], len) == PadRows(mask, len)
      decreases |mask| - i
    {
      var end := if i + len <= |mask| then i + len else |mask|;
      var row := mask[i..end];
      PadMaskStep(mask, len, i, end, padded);
      padded := PadToWord(padded + row);
      i := end;
    }
    assert mask[i..] == [];
  }

  /**
   * The header writes of png_to_cur: the directory, its entry and the info
   * header, stopping at the first value its struct format cannot hold.
   */
  method WriteHeaders(w: nat, h: nat, hotX: int, hotY: int) returns (r: Result<seq<byte>>)
    ensures !HotspotFits(hotX, hotY) ==> r == Failure(HotspotOutOfRange)
    ensures HotspotFits(hotX, hotY) && !FieldsFit(w, h) ==> r == Failure(FieldOverflow)
    ensures HotspotFits(hotX, hotY) && FieldsFit(w, h)
            ==> r == Success(IconDir() + DirEntry(w, h, hotX, hotY) + InfoHeader(w, h))
  {
    var dir := LE16(0) + LE16(2) + LE16(1);
    var entry := [DimByte(w), DimByte(h), 0] + [0];
    assert entry == [DimByte(w), DimByte(h), 0, 0];
    if !(0 <= hotX < U16Limit && 0 <= hotY < U16Limit) {
      return Failure(HotspotOutOfRange);
    }
    entry := entry + LE16(hotX) + LE16(hotY);
    var imageDataSize := w * h * 4 + 40;
    if !(imageDataSize < U32Limit && w < U32Limit && h * 2 < U32Limit) {
      return Failure(FieldOverflow);
    }
    entry := entry + LE32(imageDataSize) + LE32(22);
    var info := LE32(40) + LE32(w) + LE32(h * 2) + LE16(1) + LE16(32) + LE32(0) + LE32(w * h * 4);
    info := info + LE32(0) + LE32(0) + LE32(0) + LE32(0);
    var out := dir + entry + info;
    return Success(out);
  }

  /**
   * png_to_cur on an already decoded image: normalise the size, then write the
   * headers, the colour bytes and the padded AND mask, in that order.  A field
   * that does not fit its struct format, or a zero chunk length in the padding
   * loop, ends the encoding with an error.
   */
  method PngToCur(img: Image, resampled: Image, hotX: int, hotY: int) returns (r: Result<seq<byte>>)
    requires WellFormed(img) && WellFormed(resampled)
    requires resampled.width == CursorSide && resampled.height == CursorSide
    ensures WellFormed(Normalise(img, resampled))
    ensures r == CurFile(Normalise(img, resampled), hotX, hotY)
  {
    var im := if img.width > CursorSide || img.height > CursorSide then resampled else img;
    var headers := WriteHeaders(im.width, im.height, hotX, hotY);
    if headers.Failure? {
      return headers;
    }
    var out := headers.value;
    var pixels := EncodePixels(im);
    out := out + pixels;
    var mask := EncodeMask(im);
    var len := if im.width % 8 == 0 then im.width / 8 else im.width / 8 + 1;
    if len == 0 {
      return Failure(ZeroWidth);
    }
    var padded := PadMask(mask, len);
    out := out + padded;
    assert im == Normalise(img, resampled) && len == RowBytes(im.width);
    assert out == CurBytes(im, hotX, hotY);
    return Success(out);
  }

  /**
   * After normalisation every size field fits, so png_to_cur fails only for a
   * hotspot outside 0..65535 or an image without columns, and a file it does
   * write is 62 + 4wh + h * stride bytes with w, h at most 32.
   */
  lemma PngToCurOutcome(img: Image, resampled: Image, hotX: int, hotY: int)
    requires WellFormed(img) && WellFormed(resampled)
    requires resampled.width == CursorSide && resampled.height == CursorSide
    ensures var im := Normalise(img, resampled);
      && (CurFile(im, hotX, hotY).Failure? <==> !HotspotFits(hotX, hotY) || im.width == 0)
      && (CurFile(im, hotX, hotY).Success? ==>
            |CurFile(im, hotX, hotY).value|
            == PixelOffset + ColorSize(im.width, im.height) + im.height * Stride(im.width))
  {
    var im := Normalise(img, resampled);
    MulBound(im.width, im.height, CursorSide);
    CurFileSucceeds(im, hotX, hotY);
    if CurFile(im, hotX, hotY).Success? {
      CurLength(im, hotX, hotY);
    }
  }

  lemma MulBound(a: nat, b: nat, n: nat)
    requires a <= n && b <= n
    ensures a * b <= n * n
  {
    assert a * b <= a * n <= n * n;
  }

  // ---------------------------------------------------------------------
  // resize_and_convert_cursor

  /** A side after scaling: the product clamped to at most 255, then raised to at least 64. */
  function ScaledSide(d: nat, scale: int): (r: int)
    ensures 64 <= r <= 255
    ensures 64 <= d * scale <= 255 ==> r == d * scale
    ensures d * scale > 255 ==> r == 255
    ensures d * scale < 64 ==> r == 64
  {
    var n := d * scale;
    var clamped := if n < 255 then n else 255;
    if clamped > 64 then clamped else 64
  }

  /** The crop box (left, upper, right, lower) around the scaled hotspot. */
  datatype CropBox = CropBox(left: int, upper: int, right: int, lower: int)

  function CropAt(hotX: int, hotY: int, scale: int): (b: CropBox)
    ensures b.right - b.left == CursorSide && b.lower - b.upper == CursorSide
    ensures b.left == hotX * scale && b.upper == hotY * scale
  {
    var left, upper := hotX * scale, hotY * scale;
    CropBox(left, upper, left + 32, upper + 32)
  }

  /** The part of an output name before its first '.', as `split(".")[0]` keeps it. */
  function BaseName(name: string): (r: string)
    ensures r <= name && '.' !in r
    ensures |r| < |name| ==> name[|r|] == '.'
  {
    if name == [] || name[0] == '.' then [] else [name[0]] + BaseName(name[1..])
  }

  lemma {:induction false} BaseNameOfPlain(name: string)
    requires '.' !in name
    ensures BaseName(name) == name
  {
    if name != [] {
      BaseNameOfPlain(name[1..]);
    }
  }

  /** What get_cursor_hotspot hands back: the size of the image it extracted and the hotspot. */
  datatype HotspotInfo = HotspotInfo(width: nat, height: nat, hotX: int, hotY: int)

  /**
   * What one call did: the PNG path it chose, the cursor path (only reached
   * once the crop succeeded), the cursor bytes it wrote, and what it returned.
   */
  datatype Conversion = Conversion(
    pngName: string,
    curName: Option<string>,
    scaledSize: (int, int),
    crop: Option<CropBox>,
    curFile: Option<Result<seq<byte>>>,
    returned: Option<string>)

  /**
   * resize_and_convert_cursor with the file system and the imaging library as
   * parameters: `loaded` is get_cursor_hotspot's result (None when it raised),
   * `origWidth` / `origHeight` the size of the original cursor image and
   * `cropped` the image the library's crop produces.  The cursor is written
   * from the crop with png_to_cur's default hotspot (0, 0), and since png_to_cur
   * returns nothing the call always returns None.
   */
  method ResizeAndConvertCursor(
    outputName: string, scale: int, loaded: Option<HotspotInfo>,
    origWidth: nat, origHeight: nat, cropped: Image)
    returns (c: Conversion)
    requires WellFormed(cropped) && cropped.width == CursorSide && cropped.height == CursorSide
    ensures c.returned == None
    ensures c.pngName == BaseName(outputName) + ".png"
    ensures loaded.None? || loaded.value.width != 32 || loaded.value.height != 32
            ==> c.crop == None && c.curName == None && c.curFile == None
    ensures loaded.Some? && loaded.value.width == 32 && loaded.value.height == 32
            ==> && c.scaledSize == (ScaledSide(origWidth, scale), ScaledSide(origHeight, scale))
                && c.crop == Some(CropAt(loaded.value.hotX, loaded.value.hotY, scale))
                && c.curName == Some(BaseName(outputName) + ".cur")
                && c.curFile == Some(CurFile(cropped, 0, 0))
  {
    var base := BaseName(outputName);
    var pngPath := base + ".png";
    if loaded.None? || loaded.value.width != 32 || loaded.value.height != 32 {
      return Conversion(pngPath, None, (0, 0), None, None, None);
    }
    var newWidth := origWidth * scale;
    var newHeight := origHeight * scale;
    newWidth := if newWidth < 255 then newWidth else 255;
    newHeight := if newHeight < 255 then newHeight else 255;
    newWidth := if newWidth > 64 then newWidth else 64;
    newHeight := if newHeight > 64 then newHeight else 64;
    var cropLeft := loaded.value.hotX * scale;
    var cropUpper := loaded.value.hotY * scale;
    var box := CropBox(cropLeft, cropUpper, cropLeft + 32, cropUpper + 32);
    var curPath := base + ".cur";
    var cur := PngToCur(cropped, cropped, 0, 0);
    return Conversion(pngPath, Some(curPath), (newWidth, newHeight), Some(box), Some(cur), None);
  }

  /**
   * A 32x32 crop always encodes: 4286 bytes, with width and height bytes 32,
   * hotspot (0, 0), a size field of 4136 and the pixel data at offset 62.
   */
  lemma CroppedCursor(cropped: Image)
    requires WellFormed(cropped) && cropped.width == CursorSide && cropped.height == CursorSide
    ensures CurFile(cropped, 0, 0).Success?
    ensures var s := CurFile(cropped, 0, 0).value;
      && |s| == 4286
      && s[6] == 32 && s[7] == 32
      && ReadU16(s, 10) == 0 && ReadU16(s, 12) == 0
      && ReadU32(s, 14) == 4136 && ReadU32(s, 18) == 22
  {
    CurFileSucceeds(cropped, 0, 0);
    CurLength(cropped, 0, 0);
    HeaderFields(cropped, 0, 0);
    assert Stride(32) == 4;
  }
}
