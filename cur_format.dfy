/**
 * The byte layout of a single-image Windows cursor (.cur) file as the cursor
 * encoder writes it: a 6-byte icon directory, one 16-byte directory entry, a
 * 40-byte bitmap info header, the colour pixels bottom-up in B,G,R,A order and
 * a 1-bit AND mask whose rows are padded to 4 bytes.
 *
 * Everything here is a specification: the encoder method in module
 * CursorProcess builds the same bytes step by step and is proved equal to
 * `CurFile`.  The lemmas say where every field, pixel and mask bit lands.
 */
module CurFormat {

  /** An unsigned 8-bit value, as Python's bytes() and struct 'B' store it. */
  newtype byte = x: int | 0 <= x < 256

  /** A pixel as the RGBA conversion delivers it. */
  datatype Rgba = Rgba(r: byte, g: byte, b: byte, a: byte)

  /** An RGBA image: `rows[y][x]` is the pixel at column x of row y, rows top to bottom. */
  datatype Image = Image(width: nat, height: nat, rows: seq<seq<Rgba>>)

  predicate WellFormed(img: Image)
  {
    |img.rows| == img.height && forall y :: 0 <= y < |img.rows| ==> |img.rows[y]| == img.width
  }

  /** Every row of `rows` has `w` pixels. */
  predicate RowsOfWidth(rows: seq<seq<Rgba>>, w: nat)
  {
    forall y :: 0 <= y < |rows| ==> |rows[y]| == w
  }

  datatype EncodeError =
    | HotspotOutOfRange   // a hotspot coordinate does not fit the unsigned 16-bit field
    | FieldOverflow       // a size does not fit its unsigned 32-bit field
    | ZeroWidth           // the mask row length is 0, which the row-chunking loop cannot step by

  datatype Result<T> = Success(value: T) | Failure(error: EncodeError)

  // ---------------------------------------------------------------------
  // Little-endian integers

  const U16Limit: int := 0x1_0000
  const U32Limit: int := 0x1_0000_0000

  function LE16(v: int): (r: seq<byte>)
    requires 0 <= v < U16Limit
    ensures |r| == 2 && r[0] as int + 256 * r[1] as int == v
  {
    [(v % 256) as byte, (v / 256) as byte]
  }

  function LE32(v: int): (r: seq<byte>)
    requires 0 <= v < U32Limit
    ensures |r| == 4
    ensures r[0] as int + 256 * r[1] as int + 65536 * r[2] as int + 16777216 * r[3] as int == v
  {
    LE16(v % U16Limit) + LE16(v / U16Limit)
  }

  /** Reads back a little-endian unsigned 16-bit field. */
  function ReadU16(s: seq<byte>, off: nat): (v: int)
    requires off + 2 <= |s|
    ensures 0 <= v < U16Limit
  {
    s[off] as int + 256 * s[off + 1] as int
  }

  /** Reads back a little-endian unsigned 32-bit field. */
  function ReadU32(s: seq<byte>, off: nat): (v: int)
    requires off + 4 <= |s|
    ensures 0 <= v < U32Limit
  {
    s[off] as int + 256 * s[off + 1] as int + 65536 * s[off + 2] as int + 16777216 * s[off + 3] as int
  }

  // ---------------------------------------------------------------------
  // Headers

  const DirEntryOffset: nat := 6
  const ImageOffset: nat := 22       // written into the directory entry
  const InfoHeaderSize: nat := 40
  const PixelOffset: nat := 62       // ImageOffset + InfoHeaderSize

  /** The one-byte width/height field: the dimension, or 0 when it is 256 or more. */
  function DimByte(d: nat): (r: byte)
    ensures d < 256 ==> r as int == d
    ensures d >= 256 ==> r == 0
  {
    if d < 256 then d as byte else 0
  }

  /** Reserved 0, type 2 (cursor), one image. */
  function IconDir(): (r: seq<byte>)
    ensures |r| == 6
  {
    LE16(0) + LE16(2) + LE16(1)
  }

  /** The number of colour bytes, 4 per pixel: the info header's image size field. */
  function ColorSize(w: nat, h: nat): nat
  {
    w * h * 4
  }

  /** The value of the directory entry's size field: colour bytes plus the info header, no mask. */
  function ImageDataSize(w: nat, h: nat): nat
  {
    ColorSize(w, h) + 40
  }

  /** Whether every unsigned 32-bit field of the headers can hold its value. */
  predicate FieldsFit(w: nat, h: nat)
  {
    ImageDataSize(w, h) < U32Limit && w < U32Limit && h * 2 < U32Limit
  }

  predicate HotspotFits(hotX: int, hotY: int)
  {
    0 <= hotX < U16Limit && 0 <= hotY < U16Limit
  }

  function DirEntry(w: nat, h: nat, hotX: int, hotY: int): (r: seq<byte>)
    requires HotspotFits(hotX, hotY) && FieldsFit(w, h)
    ensures |r| == 16
  {
    [DimByte(w), DimByte(h), 0, 0] + LE16(hotX) + LE16(hotY) + LE32(ImageDataSize(w, h)) + LE32(ImageOffset)
  }

  function InfoHeader(w: nat, h: nat): (r: seq<byte>)
    requires FieldsFit(w, h)
    ensures |r| == InfoHeaderSize
  {
    LE32(40) + LE32(w) + LE32(h * 2) + LE16(1) + LE16(32) + LE32(0) + LE32(ColorSize(w, h))
    + LE32(0) + LE32(0) + LE32(0) + LE32(0)
  }

  // ---------------------------------------------------------------------
  // Colour payload

  function Bgra(p: Rgba): seq<byte>
  {
    [p.b, p.g, p.r, p.a]
  }

  /** One row of pixels, left to right, as B,G,R,A quads. */
  function RowColor(row: seq<Rgba>): (r: seq<byte>)
    ensures |r| == 4 * |row|
  {
    if row == [] then [] else Bgra(row[0]) + RowColor(row[1..])
  }

  /** Rows y, y-1, ..., 0 (bottom-up), each as `RowColor`. */
  function ColorFrom(rows: seq<seq<Rgba>>, y: int): seq<byte>
    requires -1 <= y < |rows|
    decreases y + 1
  {
    if y < 0 then [] else RowColor(rows[y]) + ColorFrom(rows, y - 1)
  }

  // ---------------------------------------------------------------------
  // AND mask

  /** Bit i of b, counting from the least significant bit. */
  predicate Bit(b: byte, i: nat)
    requires i < 8
  {
    ((b as bv8) >> i) & 1 == 1
  }

  /** Whether the pixel at column x is fully transparent (false past the row's end). */
  predicate Transparent(row: seq<Rgba>, x: nat)
  {
    x < |row| && row[x].a == 0
  }

  /** The mask byte for columns x0..x0+7 after the first n bits were ORed in, MSB first. */
  function MaskBits(row: seq<Rgba>, x0: nat, n: nat): bv8
    requires n <= 8
  {
    if n == 0 then 0
    else MaskBits(row, x0, n - 1) | (if Transparent(row, x0 + n - 1) then (1 as bv8) << (8 - n) else 0)
  }

  function MaskByte(row: seq<Rgba>, x0: nat): byte
  {
    MaskBits(row, x0, 8) as byte
  }

  /** The unpadded mask bytes of one row from column x on, one byte per 8 columns. */
  function MaskGroups(row: seq<Rgba>, x: nat): seq<byte>
    decreases |row| - x
  {
    if x >= |row| then [] else [MaskByte(row, x)] + MaskGroups(row, x + 8)
  }

  function MaskRow(row: seq<Rgba>): seq<byte>
  {
    MaskGroups(row, 0)
  }

  /** Unpadded mask rows y, y-1, ..., 0 (bottom-up). */
  function MaskFrom(rows: seq<seq<Rgba>>, y: int): seq<byte>
    requires -1 <= y < |rows|
    decreases y + 1
  {
    if y < 0 then [] else MaskRow(rows[y]) + MaskFrom(rows, y - 1)
  }

  /** The chunk length the padding loop steps by: ceil(w / 8), in the encoder's own terms. */
  function RowBytes(w: nat): nat
  {
    if w % 8 == 0 then w / 8 else w / 8 + 1
  }

  /** The 4-byte aligned mask row stride, ((w + 31) // 32) * 4. */
  function Stride(w: nat): nat
  {
    ((w + 31) / 32) * 4
  }

  function Zeros(n: nat): (r: seq<byte>)
    ensures |r| == n && forall i :: 0 <= i < n ==> r[i] == 0
  {
    if n == 0 then [] else Zeros(n - 1) + [0]
  }

  /** How many zero bytes bring a length of n up to a multiple of 4. */
  function PadTo4(n: nat): nat
  {
    (4 - n % 4) % 4
  }

  /**
   * The padding loop on its own: cut `m` into chunks of `len` bytes (the last
   * one may be shorter) and follow each chunk with zeros up to a multiple of 4.
   */
  function PadRows(m: seq<byte>, len: nat): seq<byte>
    requires len > 0
    decreases |m|
  {
    if |m| == 0 then []
    else
      var n := if len < |m| then len else |m|;
      m[..n] + Zeros(PadTo4(n)) + PadRows(m[n..], len)
  }

  /** The intended mask layout: each row's bytes, then zeros up to the stride, bottom-up. */
  function StridedMaskFrom(rows: seq<seq<Rgba>>, y: int, w: nat): seq<byte>
    requires -1 <= y < |rows|
    requires RowBytes(w) <= Stride(w)
    decreases y + 1
  {
    if y < 0 then [] else MaskRow(rows[y]) + Zeros(Stride(w) - RowBytes(w)) + StridedMaskFrom(rows, y - 1, w)
  }

  // ---------------------------------------------------------------------
  // The whole file

  /** The bytes written for an image whose fields all fit. */
  function CurBytes(img: Image, hotX: int, hotY: int): seq<byte>
    requires WellFormed(img) && HotspotFits(hotX, hotY) && FieldsFit(img.width, img.height)
    requires RowBytes(img.width) > 0
  {
    IconDir() + DirEntry(img.width, img.height, hotX, hotY) + InfoHeader(img.width, img.height)
    + ColorFrom(img.rows, img.height - 1)
    + PadRows(MaskFrom(img.rows, img.height - 1), RowBytes(img.width))
  }

  /**
   * The outcome of encoding: the first failing step, in the order the encoder
   * reaches them, or the file bytes.
   */
  function CurFile(img: Image, hotX: int, hotY: int): Result<seq<byte>>
    requires WellFormed(img)
  {
    if !HotspotFits(hotX, hotY) then Failure(HotspotOutOfRange)
    else if !FieldsFit(img.width, img.height) then Failure(FieldOverflow)
    else if RowBytes(img.width) == 0 then Failure(ZeroWidth)
    else Success(CurBytes(img, hotX, hotY))
  }

  // ---------------------------------------------------------------------
  // A reader for the directory, the partner of the header writer

  datatype Directory = Directory(width: byte, height: byte, hotX: int, hotY: int, dataSize: int, dataOffset: int)

  /** Parses the icon directory and its single entry, refusing anything that is not a one-image cursor. */
  function ParseDirectory(s: seq<byte>): (r: Option<Directory>)
    ensures r.Some? ==> |s| >= 22 && s[..6] == [0, 0, 2, 0, 1, 0]
  {
    if |s| < 22 || ReadU16(s, 0) != 0 || ReadU16(s, 2) != 2 || ReadU16(s, 4) != 1 then None
    else Some(Directory(s[6], s[7], ReadU16(s, 10), ReadU16(s, 12), ReadU32(s, 14), ReadU32(s, 18)))
  }

  datatype Option<T> = None | Some(value: T)
}
