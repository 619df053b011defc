/**
 * Where every field, pixel and mask bit of an encoded cursor file lands,
 * proved about the specification in module CurFormat.
 */
module CurLayout {
  import opened CurFormat

  // ---------------------------------------------------------------------
  // Row length, stride and padding arithmetic

  /**
   * The chunk length of the padding loop is ceil(w/8), and padding one chunk to
   * a multiple of 4 gives exactly the stride ((w + 31) // 32) * 4.
   */
  lemma StrideFacts(w: nat)
    ensures RowBytes(w) == (w + 7) / 8
    ensures RowBytes(w) == 0 <==> w == 0
    ensures RowBytes(w) <= Stride(w) <= RowBytes(w) + 3
    ensures Stride(w) % 4 == 0
    ensures RowBytes(w) + PadTo4(RowBytes(w)) == Stride(w)
  {
    var q, r := w / 32, w % 32;
    assert w == 32 * q + r;
    assert RowBytes(w) == 4 * q + (r + 7) / 8;
    if r == 0 {
      assert Stride(w) == 4 * q;
    } else {
      assert Stride(w) == 4 * q + 4;
    }
  }

  // ---------------------------------------------------------------------
  // Mask bits

  /** Bit i of a bit-vector byte, counting from the least significant bit. */
  predicate BitOf(v: bv8, i: nat)
    requires i < 8
  {
    (v >> i) & 1 == 1
  }

  lemma ByteBit(v: bv8, i: nat)
    requires i < 8
    ensures Bit(v as byte, i) == BitOf(v, i)
  {
    assert (v as byte) as bv8 == v;
  }

  /** After n of the 8 OR steps, bit 7-k is set exactly for an earlier, transparent column. */
  lemma {:induction false} MaskBitsBit(row: seq<Rgba>, x0: nat, n: nat, k: nat)
    requires n <= 8 && k < 8
    ensures BitOf(MaskBits(row, x0, n), 7 - k) <==> k < n && Transparent(row, x0 + k)
  {
    if n > 0 {
      MaskBitsBit(row, x0, n - 1, k);
      var prev := MaskBits(row, x0, n - 1);
      if Transparent(row, x0 + n - 1) {
        assert MaskBits(row, x0, n) == prev | ((1 as bv8) << (7 - (n - 1)));
        OrShiftedBit(prev, n - 1, k);
      } else {
        assert MaskBits(row, x0, n) == prev | 0;
      }
    }
  }

  lemma OrShiftedBit(a: bv8, j: nat, k: nat)
    requires j < 8 && k < 8
    ensures BitOf(a | ((1 as bv8) << (7 - j)), 7 - k) <==> BitOf(a, 7 - k) || j == k
  {
    var m := (1 as bv8) << (7 - j);
    assert (a | m) >> (7 - k) == (a >> (7 - k)) | (m >> (7 - k));
  }

  /**
   * Bit 7-k of the mask byte for columns x0..x0+7 (MSB first) is set exactly
   * when column x0+k exists and is fully transparent; in particular every bit
   * past the row's end is 0.
   */
  lemma MaskByteBit(row: seq<Rgba>, x0: nat, k: nat)
    requires k < 8
    ensures Bit(MaskByte(row, x0), 7 - k) <==> Transparent(row, x0 + k)
  {
    var v := MaskBits(row, x0, 8);
    MaskBitsBit(row, x0, 8, k);
    ByteBit(v, 7 - k);
  }

  /** A byte with no bit set is 0. */
  lemma NoBitIsZero(b: byte)
    requires forall i :: 0 <= i < 8 ==> !Bit(b, i)
    ensures b == 0
  {
    var v := b as bv8;
    assert !Bit(b, 0) && !Bit(b, 1) && !Bit(b, 2) && !Bit(b, 3);
    assert !Bit(b, 4) && !Bit(b, 5) && !Bit(b, 6) && !Bit(b, 7);
    assert v == 0;
  }

  /** A mask byte over columns none of which is transparent is 0. */
  lemma OpaqueMaskByte(row: seq<Rgba>, x0: nat)
    requires forall x :: 0 <= x < |row| ==> row[x].a != 0
    ensures MaskByte(row, x0) == 0
  {
    forall i | 0 <= i < 8 ensures !Bit(MaskByte(row, x0), i) {
      MaskByteBit(row, x0, 7 - i);
    }
    NoBitIsZero(MaskByte(row, x0));
  }

  // ---------------------------------------------------------------------
  // Mask rows

  lemma {:induction false} MaskGroupsLength(row: seq<Rgba>, x: nat)
    requires x % 8 == 0 && x <= |row|
    ensures |MaskGroups(row, x)| == RowBytes(|row|) - x / 8
    decreases |row| - x
  {
    if x < |row| {
      if x + 8 <= |row| {
        MaskGroupsLength(row, x + 8);
      } else {
        assert MaskGroups(row, x + 8) == [];
      }
    }
  }

  lemma {:induction false} MaskGroupsAt(row: seq<Rgba>, x: nat, j: nat)
    requires j < |MaskGroups(row, x)|
    ensures MaskGroups(row, x)[j] == MaskByte(row, x + 8 * j)
    decreases |row| - x
  {
    if j > 0 {
      MaskGroupsAt(row, x + 8, j - 1);
    }
  }

  /** A row of w pixels has RowBytes(w) mask bytes; byte j covers columns 8j..8j+7. */
  lemma MaskRowFacts(row: seq<Rgba>)
    ensures |MaskRow(row)| == RowBytes(|row|)
    ensures forall j :: 0 <= j < |MaskRow(row)| ==> MaskRow(row)[j] == MaskByte(row, 8 * j)
  {
    MaskGroupsLength(row, 0);
    forall j | 0 <= j < |MaskRow(row)| ensures MaskRow(row)[j] == MaskByte(row, 8 * j) {
      MaskGroupsAt(row, 0, j);
    }
  }

  lemma {:induction false} MaskFromLength(rows: seq<seq<Rgba>>, y: int, w: nat)
    requires -1 <= y < |rows| && RowsOfWidth(rows, w)
    ensures |MaskFrom(rows, y)| == (y + 1) * RowBytes(w)
    decreases y + 1
  {
    if y >= 0 {
      MaskRowFacts(rows[y]);
      MaskFromLength(rows, y - 1, w);
    }
  }

  /**
   * The padding loop, which pads the running total to a multiple of 4 after
   * every chunk, yields exactly the stride layout: each row's mask bytes
   * followed by zeros up to ((w + 31) // 32) * 4.
   */
  lemma {:induction false} PaddedMaskIsStrided(rows: seq<seq<Rgba>>, y: int, w: nat)
    requires -1 <= y < |rows| && RowsOfWidth(rows, w) && w > 0
    ensures RowBytes(w) <= Stride(w)
    ensures PadRows(MaskFrom(rows, y), RowBytes(w)) == StridedMaskFrom(rows, y, w)
    decreases y + 1
  {
    StrideFacts(w);
    if y >= 0 {
      var len := RowBytes(w);
      var m := MaskFrom(rows, y);
      MaskRowFacts(rows[y]);
      MaskFromLength(rows, y - 1, w);
      assert m == MaskRow(rows[y]) + MaskFrom(rows, y - 1);
      assert m[..len] == MaskRow(rows[y]);
      assert m[len..] == MaskFrom(rows, y - 1);
      PaddedMaskIsStrided(rows, y - 1, w);
    }
  }

  lemma {:induction false} StridedLength(rows: seq<seq<Rgba>>, y: int, w: nat)
    requires -1 <= y < |rows| && RowsOfWidth(rows, w) && RowBytes(w) <= Stride(w)
    ensures |StridedMaskFrom(rows, y, w)| == (y + 1) * Stride(w)
    decreases y + 1
  {
    if y >= 0 {
      MaskRowFacts(rows[y]);
      StridedLength(rows, y - 1, w);
    }
  }

  lemma MulNonNegative(a: nat, b: nat)
    ensures a * b >= 0
  {
  }

  lemma MulStep(k: int, n: int)
    ensures k * n == (k - 1) * n + n
  {
  }

  /** Byte j of the k-th row block (row y0 - k) sits at k * stride + j: a mask byte before RowBytes(w), zero after. */
  lemma {:induction false} StridedAt(rows: seq<seq<Rgba>>, y0: int, w: nat, k: nat, j: nat)
    requires k <= y0 < |rows| && RowsOfWidth(rows, w) && RowBytes(w) <= Stride(w)
    requires j < Stride(w)
    ensures 0 <= k * Stride(w) + j < |StridedMaskFrom(rows, y0, w)|
            && StridedMaskFrom(rows, y0, w)[k * Stride(w) + j]
            == if j < RowBytes(w) then MaskByte(rows[y0 - k], 8 * j) else 0
    decreases y0
  {
    var s := Stride(w);
    var row := MaskRow(rows[y0]) + Zeros(s - RowBytes(w));
    MaskRowFacts(rows[y0]);
    assert |row| == s;
    assert StridedMaskFrom(rows, y0, w) == row + StridedMaskFrom(rows, y0 - 1, w);
    if k > 0 {
      StridedAt(rows, y0 - 1, w, k - 1, j);
      var prev := (k - 1) * s;
      MulStep(k, s);
      assert k * s + j == s + (prev + j);
    }
  }

  // ---------------------------------------------------------------------
  // Colour rows

  lemma {:induction false} RowColorAt(row: seq<Rgba>, x: nat, c: nat)
    requires x < |row| && c < 4
    ensures RowColor(row)[4 * x + c] == Bgra(row[x])[c]
  {
    if x > 0 {
      RowColorAt(row[1..], x - 1, c);
    }
  }

  lemma {:induction false} ColorFromLength(rows: seq<seq<Rgba>>, y: int, w: nat)
    requires -1 <= y < |rows| && RowsOfWidth(rows, w)
    ensures |ColorFrom(rows, y)| == ColorSize(w, y + 1)
    decreases y + 1
  {
    if y >= 0 {
      ColorFromLength(rows, y - 1, w);
      assert |RowColor(rows[y])| == 4 * w;
      MulStep(y + 1, w);
      assert ColorSize(w, y + 1) == ColorSize(w, y) + 4 * w;
    }
  }

  /** Pixel x of the k-th row block (row y0 - k) is the (k * w + x)-th quad of the bottom-up payload. */
  lemma {:induction false} ColorFromAt(rows: seq<seq<Rgba>>, y0: int, w: nat, k: nat, x: nat, c: nat)
    requires k <= y0 < |rows| && RowsOfWidth(rows, w) && x < w && c < 4
    ensures 0 <= (k * w + x) * 4 + c < |ColorFrom(rows, y0)|
            && ColorFrom(rows, y0)[(k * w + x) * 4 + c] == Bgra(rows[y0 - k][x])[c]
    decreases y0
  {
    var first := RowColor(rows[y0]);
    var rest := ColorFrom(rows, y0 - 1);
    assert |first| == 4 * w;
    assert ColorFrom(rows, y0) == first + rest;
    if k > 0 {
      ColorFromAt(rows, y0 - 1, w, k - 1, x, c);
      var prev := (k - 1) * w;
      MulStep(k, w);
      assert k * w == prev + w;
      assert (k * w + x) * 4 + c == 4 * w + ((prev + x) * 4 + c);
      assert (prev + x) * 4 + c < |rest|;
    } else {
      RowColorAt(rows[y0], x, c);
    }
  }

  // ---------------------------------------------------------------------
  // The file

  predicate Encodable(img: Image, hotX: int, hotY: int)
  {
    WellFormed(img) && HotspotFits(hotX, hotY) && FieldsFit(img.width, img.height) && img.width > 0
  }

  /** Encoding fails exactly when a hotspot or size field overflows or the image has no columns. */
  lemma CurFileSucceeds(img: Image, hotX: int, hotY: int)
    requires WellFormed(img)
    ensures CurFile(img, hotX, hotY).Success? <==> Encodable(img, hotX, hotY)
    ensures CurFile(img, hotX, hotY).Success? ==> CurFile(img, hotX, hotY).value == CurBytes(img, hotX, hotY)
  {
    StrideFacts(img.width);
  }

  /** The file is 62 header bytes, 4 bytes per pixel, then one stride of mask per row. */
  lemma CurLength(img: Image, hotX: int, hotY: int)
    requires Encodable(img, hotX, hotY)
    ensures |CurBytes(img, hotX, hotY)| == PixelOffset + ColorSize(img.width, img.height) + img.height * Stride(img.width)
  {
    var w, h := img.width, img.height as int;
    ColorFromLength(img.rows, h - 1, w);
    PaddedMaskIsStrided(img.rows, h - 1, w);
    StridedLength(img.rows, h - 1, w);
  }

  /** The first 62 bytes are the icon directory with its entry, then the info header. */
  lemma HeaderParts(img: Image, hotX: int, hotY: int)
    requires Encodable(img, hotX, hotY)
    ensures var s := CurBytes(img, hotX, hotY);
      && |s| >= PixelOffset
      && s[..ImageOffset] == IconDir() + DirEntry(img.width, img.height, hotX, hotY)
      && s[ImageOffset..PixelOffset] == InfoHeader(img.width, img.height)
  {
    var w, h := img.width, img.height as int;
    var d := IconDir() + DirEntry(w, h, hotX, hotY);
    var info := InfoHeader(w, h);
    var rest := ColorFrom(img.rows, h - 1) + PadRows(MaskFrom(img.rows, h - 1), RowBytes(w));
    assert CurBytes(img, hotX, hotY) == d + info + rest;
  }

  /** The icon directory and its entry, read back field by field. */
  lemma DirectoryFields(s: seq<byte>, w: nat, h: nat, hotX: int, hotY: int)
    requires HotspotFits(hotX, hotY) && FieldsFit(w, h)
    requires |s| >= ImageOffset && s[..ImageOffset] == IconDir() + DirEntry(w, h, hotX, hotY)
    ensures ReadU16(s, 0) == 0 && ReadU16(s, 2) == 2 && ReadU16(s, 4) == 1
    ensures s[6] == DimByte(w) && s[7] == DimByte(h) && s[8] == 0 && s[9] == 0
    ensures ReadU16(s, 10) == hotX && ReadU16(s, 12) == hotY
    ensures ReadU32(s, 14) == ColorSize(w, h) + 40 && ReadU32(s, 18) == 22
  {
    var d := s[..ImageOffset];
    var hx, hy, size, off := LE16(hotX), LE16(hotY), LE32(ImageDataSize(w, h)), LE32(ImageOffset);
    assert d == [0, 0, 2, 0, 1, 0] + [DimByte(w), DimByte(h), 0, 0] + hx + hy + size + off;
    assert s[0] == d[0] && s[1] == d[1] && s[2] == d[2] && s[3] == d[3] && s[4] == d[4] && s[5] == d[5];
    assert s[6] == d[6] && s[7] == d[7] && s[8] == d[8] && s[9] == d[9];
    assert s[10] == hx[0] && s[11] == hx[1];
    assert s[12] == hy[0] && s[13] == hy[1];
    assert s[14] == size[0] && s[15] == size[1] && s[16] == size[2] && s[17] == size[3];
    assert s[18] == off[0] && s[19] == off[1] && s[20] == off[2] && s[21] == off[3];
  }

  /** The info header's size, width, doubled height, planes and bit count fields. */
  lemma InfoHeaderFront(s: seq<byte>, w: nat, h: nat)
    requires FieldsFit(w, h)
    requires |s| >= PixelOffset && s[ImageOffset..PixelOffset] == InfoHeader(w, h)
    ensures ReadU32(s, 22) == 40 && ReadU32(s, 26) == w && ReadU32(s, 30) == h * 2
    ensures ReadU16(s, 34) == 1 && ReadU16(s, 36) == 32
  {
    var i := s[ImageOffset..PixelOffset];
    var f0, f1, f2, p1, p2 := LE32(40), LE32(w), LE32(h * 2), LE16(1), LE16(32);
    assert i[..16] == f0 + f1 + f2 + p1 + p2;
    assert s[22] == f0[0] && s[23] == f0[1] && s[24] == f0[2] && s[25] == f0[3];
    assert s[26] == f1[0] && s[27] == f1[1] && s[28] == f1[2] && s[29] == f1[3];
    assert s[30] == f2[0] && s[31] == f2[1] && s[32] == f2[2] && s[33] == f2[3];
    assert s[34] == p1[0] && s[35] == p1[1] && s[36] == p2[0] && s[37] == p2[1];
  }

  /** The info header's compression, image size and four zero fields. */
  lemma InfoHeaderBack(s: seq<byte>, w: nat, h: nat)
    requires FieldsFit(w, h)
    requires |s| >= PixelOffset && s[ImageOffset..PixelOffset] == InfoHeader(w, h)
    ensures ReadU32(s, 38) == 0 && ReadU32(s, 42) == ColorSize(w, h)
    ensures ReadU32(s, 46) == 0 && ReadU32(s, 50) == 0 && ReadU32(s, 54) == 0 && ReadU32(s, 58) == 0
  {
    var i := s[ImageOffset..PixelOffset];
    var f5, z := LE32(ColorSize(w, h)), LE32(0);
    assert i[16..] == z + f5 + z + z + z + z;
    assert s[42] == f5[0] && s[43] == f5[1] && s[44] == f5[2] && s[45] == f5[3];
    assert s[38] == 0 && s[39] == 0 && s[40] == 0 && s[41] == 0;
    assert forall k :: 46 <= k < 62 ==> s[k] == i[k - 22] == 0;
  }

  /** The bitmap info header, read back field by field. */
  lemma InfoHeaderFields(s: seq<byte>, w: nat, h: nat)
    requires FieldsFit(w, h)
    requires |s| >= PixelOffset && s[ImageOffset..PixelOffset] == InfoHeader(w, h)
    ensures ReadU32(s, 22) == 40 && ReadU32(s, 26) == w && ReadU32(s, 30) == h * 2
    ensures ReadU16(s, 34) == 1 && ReadU16(s, 36) == 32
    ensures ReadU32(s, 38) == 0 && ReadU32(s, 42) == ColorSize(w, h)
    ensures ReadU32(s, 46) == 0 && ReadU32(s, 50) == 0 && ReadU32(s, 54) == 0 && ReadU32(s, 58) == 0
  {
    InfoHeaderFront(s, w, h);
    InfoHeaderBack(s, w, h);
  }

  /** The two headers of an encoded file, read back field by field. */
  lemma HeaderFields(img: Image, hotX: int, hotY: int)
    requires Encodable(img, hotX, hotY)
    ensures |CurBytes(img, hotX, hotY)| >= PixelOffset
    ensures var s := CurBytes(img, hotX, hotY);
      && ReadU16(s, 0) == 0 && ReadU16(s, 2) == 2 && ReadU16(s, 4) == 1
      && s[6] == DimByte(img.width) && s[7] == DimByte(img.height) && s[8] == 0 && s[9] == 0
      && ReadU16(s, 10) == hotX && ReadU16(s, 12) == hotY
      && ReadU32(s, 14) == ColorSize(img.width, img.height) + 40
      && ReadU32(s, 18) == 22
      && ReadU32(s, 22) == 40
      && ReadU32(s, 26) == img.width
      && ReadU32(s, 30) == img.height * 2
      && ReadU16(s, 34) == 1 && ReadU16(s, 36) == 32
      && ReadU32(s, 38) == 0
      && ReadU32(s, 42) == ColorSize(img.width, img.height)
      && ReadU32(s, 46) == 0 && ReadU32(s, 50) == 0 && ReadU32(s, 54) == 0 && ReadU32(s, 58) == 0
  {
    HeaderParts(img, hotX, hotY);
    DirectoryFields(CurBytes(img, hotX, hotY), img.width, img.height, hotX, hotY);
    InfoHeaderFields(CurBytes(img, hotX, hotY), img.width, img.height);
  }

  /** The bytes after the headers are the bottom-up colour rows. */
  lemma ColorPart(img: Image, hotX: int, hotY: int)
    requires Encodable(img, hotX, hotY)
    ensures var s, end := CurBytes(img, hotX, hotY), PixelOffset + ColorSize(img.width, img.height);
      end <= |s| && s[PixelOffset..end] == ColorFrom(img.rows, img.height - 1)
  {
    var w, h := img.width, img.height as int;
    var headers := IconDir() + DirEntry(w, h, hotX, hotY) + InfoHeader(w, h);
    var color := ColorFrom(img.rows, h - 1);
    var mask := PadRows(MaskFrom(img.rows, h - 1), RowBytes(w));
    ColorFromLength(img.rows, h - 1, w);
    assert CurBytes(img, hotX, hotY) == headers + color + mask;
  }

  /** Everything after the colour bytes is the strided mask. */
  lemma MaskTail(img: Image, hotX: int, hotY: int)
    requires Encodable(img, hotX, hotY)
    ensures var s, start := CurBytes(img, hotX, hotY), PixelOffset + ColorSize(img.width, img.height);
      RowBytes(img.width) <= Stride(img.width) && start <= |s|
      && s[start..] == StridedMaskFrom(img.rows, img.height - 1, img.width)
  {
    var w, h := img.width, img.height as int;
    var headers := IconDir() + DirEntry(w, h, hotX, hotY) + InfoHeader(w, h);
    var color := ColorFrom(img.rows, h - 1);
    var mask := PadRows(MaskFrom(img.rows, h - 1), RowBytes(w));
    ColorFromLength(img.rows, h - 1, w);
    PaddedMaskIsStrided(img.rows, h - 1, w);
    assert CurBytes(img, hotX, hotY) == (headers + color) + mask;
    assert |headers + color| == PixelOffset + ColorSize(w, h);
  }

  /** Channel c of pixel (x, y) in B, G, R, A order is byte c of its quad at 62 + ((h - 1 - y) * w + x) * 4. */
  lemma PixelByte(img: Image, hotX: int, hotY: int, x: nat, y: nat, c: nat)
    requires Encodable(img, hotX, hotY) && x < img.width && y < img.height && c < 4
    ensures var s, at := CurBytes(img, hotX, hotY), PixelOffset + ((img.height - 1 - y) * img.width + x) * 4;
      0 <= at && at + c < |s| && s[at + c] == Bgra(img.rows[y][x])[c]
  {
    var w, h := img.width, img.height as int;
    var k: nat := h - 1 - y;
    var s := CurBytes(img, hotX, hotY);
    ColorPart(img, hotX, hotY);
    MulNonNegative(k, w);
    var i := (k * w + x) * 4 + c;
    ColorFromAt(img.rows, h - 1, w, k, x, c);
    assert s[PixelOffset + i] == s[PixelOffset..PixelOffset + ColorSize(w, h)][i];
  }

  /** Pixel (x, y) is stored as b, g, r, a at 62 + ((h - 1 - y) * w + x) * 4. */
  lemma PixelPlacement(img: Image, hotX: int, hotY: int, x: nat, y: nat)
    requires Encodable(img, hotX, hotY) && x < img.width && y < img.height
    ensures var s, p, at := CurBytes(img, hotX, hotY), img.rows[y][x], PixelOffset + ((img.height - 1 - y) * img.width + x) * 4;
      0 <= at && at + 4 <= |s| && s[at] == p.b && s[at + 1] == p.g && s[at + 2] == p.r && s[at + 3] == p.a
  {
    PixelByte(img, hotX, hotY, x, y, 0);
    PixelByte(img, hotX, hotY, x, y, 1);
    PixelByte(img, hotX, hotY, x, y, 2);
    PixelByte(img, hotX, hotY, x, y, 3);
  }

  /** Where the mask byte holding pixel (x, y) sits. */
  function MaskByteIndex(w: nat, h: nat, x: nat, y: nat): int
  {
    PixelOffset + ColorSize(w, h) + (h - 1 - y) * Stride(w) + x / 8
  }

  /** The mask bit of pixel (x, y), bit 7 - x % 8 of its byte, is set exactly when its alpha is 0. */
  lemma MaskBitPlacement(img: Image, hotX: int, hotY: int, x: nat, y: nat)
    requires Encodable(img, hotX, hotY) && x < img.width && y < img.height
    ensures var s, at := CurBytes(img, hotX, hotY), MaskByteIndex(img.width, img.height, x, y);
      0 <= at < |s| && (Bit(s[at], 7 - x % 8) <==> img.rows[y][x].a == 0)
  {
    var w := img.width;
    var j := x / 8;
    StrideFacts(w);
    assert j < RowBytes(w);
    MaskBytePlacement(img, hotX, hotY, y, j);
    MaskByteBit(img.rows[y], 8 * j, x % 8);
  }

  /** Mask byte j of row y, at 62 + 4wh + (h - 1 - y) * stride + j: the byte for columns 8j..8j+7, or padding 0. */
  lemma MaskBytePlacement(img: Image, hotX: int, hotY: int, y: nat, j: nat)
    requires Encodable(img, hotX, hotY) && y < img.height && j < Stride(img.width)
    ensures var s, at := CurBytes(img, hotX, hotY), PixelOffset + ColorSize(img.width, img.height) + (img.height - 1 - y) * Stride(img.width) + j;
      0 <= at < |s| && s[at] == if j < RowBytes(img.width) then MaskByte(img.rows[y], 8 * j) else 0
  {
    var w, h := img.width, img.height as int;
    var k: nat := h - 1 - y;
    var s := CurBytes(img, hotX, hotY);
    var start := PixelOffset + ColorSize(w, h);
    MaskTail(img, hotX, hotY);
    StridedAt(img.rows, h - 1, w, k, j);
    var i := k * Stride(w) + j;
    assert s[start + i] == s[start..][i];
  }

  /** The mask bytes of row y past ceil(w/8) are the zero padding up to the stride. */
  lemma MaskPaddingIsZero(img: Image, hotX: int, hotY: int, y: nat, j: nat)
    requires Encodable(img, hotX, hotY) && y < img.height
    requires RowBytes(img.width) <= j < Stride(img.width)
    ensures var s, at := CurBytes(img, hotX, hotY), PixelOffset + ColorSize(img.width, img.height) + (img.height - 1 - y) * Stride(img.width) + j;
      0 <= at < |s| && s[at] == 0
  {
    MaskBytePlacement(img, hotX, hotY, y, j);
  }

  predicate Opaque(img: Image)
    requires WellFormed(img)
  {
    forall y, x :: 0 <= y < img.height && 0 <= x < img.width ==> img.rows[y][x].a != 0
  }

  /** A row with no transparent pixel has only zero mask bytes. */
  lemma {:induction false} OpaqueGroups(row: seq<Rgba>, x: nat)
    requires forall c :: 0 <= c < |row| ==> row[c].a != 0
    ensures forall i :: 0 <= i < |MaskGroups(row, x)| ==> MaskGroups(row, x)[i] == 0
    decreases |row| - x
  {
    if x < |row| {
      OpaqueMaskByte(row, x);
      OpaqueGroups(row, x + 8);
    }
  }

  lemma {:induction false} OpaqueStrided(rows: seq<seq<Rgba>>, y: int, w: nat)
    requires -1 <= y < |rows| && RowBytes(w) <= Stride(w)
    requires forall r, c :: 0 <= r <= y && 0 <= c < |rows[r]| ==> rows[r][c].a != 0
    ensures forall i :: 0 <= i < |StridedMaskFrom(rows, y, w)| ==> StridedMaskFrom(rows, y, w)[i] == 0
    decreases y + 1
  {
    if y >= 0 {
      OpaqueGroups(rows[y], 0);
      OpaqueStrided(rows, y - 1, w);
    }
  }

  /** An image without a fully transparent pixel has an all-zero mask. */
  lemma OpaqueImageMask(img: Image, hotX: int, hotY: int)
    requires Encodable(img, hotX, hotY) && Opaque(img)
    ensures var s := CurBytes(img, hotX, hotY);
      forall i :: PixelOffset + ColorSize(img.width, img.height) <= i < |s| ==> s[i] == 0
  {
    MaskTail(img, hotX, hotY);
    OpaqueStrided(img.rows, img.height - 1, img.width);
    ZeroTail(CurBytes(img, hotX, hotY), PixelOffset + ColorSize(img.width, img.height));
  }

  lemma ZeroTail(s: seq<byte>, start: nat)
    requires start <= |s| && forall i :: 0 <= i < |s[start..]| ==> s[start..][i] == 0
    ensures forall i :: start <= i < |s| ==> s[i] == 0
  {
    forall i | start <= i < |s| ensures s[i] == 0 {
      assert s[i] == s[start..][i - start];
    }
  }

  /** Reading the directory back recovers the dimensions, the hotspot, the size field and the offset. */
  lemma DirectoryRoundTrip(img: Image, hotX: int, hotY: int)
    requires Encodable(img, hotX, hotY)
    ensures ParseDirectory(CurBytes(img, hotX, hotY))
            == Some(Directory(DimByte(img.width), DimByte(img.height), hotX, hotY,
                              ImageDataSize(img.width, img.height), ImageOffset))
    ensures img.width < 256 && img.height < 256 ==>
              var d := ParseDirectory(CurBytes(img, hotX, hotY)).value;
              d.width as int == img.width && d.height as int == img.height
  {
    HeaderFields(img, hotX, hotY);
  }
}
