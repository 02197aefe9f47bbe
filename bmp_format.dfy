/** The packed on-disk records of bmp.h: the 54-byte BMP header (a 14-byte
    BITMAPFILEHEADER followed by a 40-byte BITMAPINFOHEADER), the 4-byte
    Pixel, and the error codes. The header is read and written as a verbatim
    copy of the packed struct; on a little-endian host that is the
    little-endian byte encoding defined here. */
module BmpFormat {

  type Byte = b: int | 0 <= b < 0x100
  type UInt16 = n: int | 0 <= n < 0x1_0000
  type UInt32 = n: int | 0 <= n < 0x1_0000_0000
  type Int32 = n: int | -0x8000_0000 <= n < 0x8000_0000

  const INT32_MIN: Int32 := -0x8000_0000

  /** The error codes of bmp.h, reported through printError. */
  datatype Error = ArgumentError | FileError | MemoryError | ValidError {
    function Code(): (c: int)
      ensures 1 <= c <= 4
    {
      match this
      case ArgumentError => 1
      case FileError => 2
      case MemoryError => 3
      case ValidError => 4
    }
  }

  lemma ErrorCodesDistinct(e: Error, e': Error)
    ensures e.Code() == e'.Code() <==> e == e'
  {
  }

  const FILE_HEADER_SIZE: nat := 14
  const INFO_HEADER_SIZE: nat := 40
  const HEADER_SIZE: nat := FILE_HEADER_SIZE + INFO_HEADER_SIZE
  const PIXEL_SIZE: nat := 4

  /** The magic tag "BM" read as a little-endian 16-bit value. */
  const BMP_MAGIC: UInt16 := 0x4D42

  /** BMP_Header, field by field in declaration order (the C field `type`
      is called fileType here, `type` being a Dafny keyword). */
  datatype Header = Header(
    fileType: UInt16,
    size: UInt32,
    reserved1: UInt16,
    reserved2: UInt16,
    offset: UInt32,
    headerSize: UInt32,
    widthPx: Int32,
    heightPx: Int32,
    planes: UInt16,
    bitsPerPixel: UInt16,
    compression: UInt32,
    imageSize: UInt32,
    xResolution: Int32,
    yResolution: Int32,
    nColours: UInt32,
    importantColours: UInt32)

  /** Pixel: blue, green, red, alpha, one byte each, in that order. */
  datatype Pixel = Pixel(blue: Byte, green: Byte, red: Byte, alpha: Byte)

  /** The three colour channels the filters work on. */
  datatype Channel = Blue | Green | Red

  function Get(p: Pixel, c: Channel): Byte
  {
    match c
    case Blue => p.blue
    case Green => p.green
    case Red => p.red
  }

  // ---- little-endian integers ------------------------------------------

  function EncodeU16(v: UInt16): (r: seq<Byte>)
    ensures |r| == 2
  {
    [v % 0x100, v / 0x100]
  }

  /** Little-endian: the first byte is the low digit in base 256, the second the high one. */
  function DecodeU16(b: seq<Byte>): (v: UInt16)
    requires |b| == 2
    ensures v % 0x100 == b[0] && v / 0x100 == b[1]
  {
    ByteDivMod(b[0] as int + 0x100 * (b[1] as int), b[1], b[0]);
    b[0] as int + 0x100 * (b[1] as int)
  }

  function EncodeU32(v: UInt32): (r: seq<Byte>)
    ensures |r| == 4
  {
    var v1 := v / 0x100;
    var v2 := v1 / 0x100;
    [v % 0x100, v1 % 0x100, v2 % 0x100, v2 / 0x100]
  }

  /** Little-endian: byte k is base-256 digit k, the lowest first. */
  function DecodeU32(b: seq<Byte>): (v: UInt32)
    requires |b| == 4
    ensures v % 0x100 == b[0] && (v / 0x100) % 0x100 == b[1]
    ensures (v / 0x100 / 0x100) % 0x100 == b[2] && v / 0x100 / 0x100 / 0x100 == b[3]
  {
    var v1 := b[1] as int + 0x100 * (b[2] as int) + 0x1_0000 * (b[3] as int);
    var v2 := b[2] as int + 0x100 * (b[3] as int);
    ByteDivMod(b[0] as int + 0x100 * v1, v1, b[0]);
    ByteDivMod(v1, v2, b[1]);
    ByteDivMod(v2, b[3], b[2]);
    b[0] as int + 0x100 * (b[1] as int) + 0x1_0000 * (b[2] as int) + 0x100_0000 * (b[3] as int)
  }

  /** Two's complement: a negative value is stored as v + 2^32. */
  function EncodeI32(v: Int32): (r: seq<Byte>)
    ensures |r| == 4
  {
    EncodeU32(if v < 0 then v + 0x1_0000_0000 else v)
  }

  /** Two's complement: the value is negative exactly when the top bit of
      its last byte is set, and it is then the unsigned reading less 2^32
      (the reinterpretation EncodeI32 undoes). */
  function DecodeI32(b: seq<Byte>): (v: Int32)
    requires |b| == 4
    ensures v < 0 <==> b[3] >= 0x80
    ensures (if v < 0 then v + 0x1_0000_0000 else v) == DecodeU32(b)
  {
    var u := DecodeU32(b);
    if u < 0x8000_0000 then u else u - 0x1_0000_0000
  }

  lemma U16RoundTrip(v: UInt16)
    ensures DecodeU16(EncodeU16(v)) == v
  {
  }

  lemma U16BytesRoundTrip(b: seq<Byte>)
    requires |b| == 2
    ensures EncodeU16(DecodeU16(b)) == b
  {
  }

  lemma U32RoundTrip(v: UInt32)
    ensures DecodeU32(EncodeU32(v)) == v
  {
    var v1 := v / 0x100;
    var v2 := v1 / 0x100;
    assert v == v % 0x100 + 0x100 * v1;
    assert v1 == v1 % 0x100 + 0x100 * v2;
    assert v2 == v2 % 0x100 + 0x100 * (v2 / 0x100);
  }

  lemma U32BytesRoundTrip(b: seq<Byte>)
    requires |b| == 4
    ensures EncodeU32(DecodeU32(b)) == b
  {
    var v := DecodeU32(b);
    var v1 := b[1] as int + 0x100 * (b[2] as int) + 0x1_0000 * (b[3] as int);
    var v2 := b[2] as int + 0x100 * (b[3] as int);
    ByteDivMod(v, v1, b[0]);
    ByteDivMod(v1, v2, b[1]);
    ByteDivMod(v2, b[3], b[2]);
  }

  /** The base-256 digit split is the division by 256 and its remainder. */
  lemma ByteDivMod(a: int, q: int, r: Byte)
    requires a == 0x100 * q + r
    ensures a / 0x100 == q && a % 0x100 == r
  {
  }

  lemma I32RoundTrip(v: Int32)
    ensures DecodeI32(EncodeI32(v)) == v
  {
    U32RoundTrip(if v < 0 then v + 0x1_0000_0000 else v);
  }

  lemma I32BytesRoundTrip(b: seq<Byte>)
    requires |b| == 4
    ensures EncodeI32(DecodeI32(b)) == b
  {
    U32BytesRoundTrip(b);
  }

  // ---- the header ------------------------------------------------------

  /** BITMAPFILEHEADER: type, size, reserved1, reserved2, offset. */
  function EncodeFileHeader(h: Header): (r: seq<Byte>)
    ensures |r| == FILE_HEADER_SIZE
  {
    EncodeU16(h.fileType) + EncodeU32(h.size) + EncodeU16(h.reserved1)
      + EncodeU16(h.reserved2) + EncodeU32(h.offset)
  }

  /** BITMAPINFOHEADER: header_size through importantcolours. */
  function EncodeInfoHeader(h: Header): (r: seq<Byte>)
    ensures |r| == INFO_HEADER_SIZE
  {
    EncodeU32(h.headerSize) + EncodeI32(h.widthPx) + EncodeI32(h.heightPx)
      + EncodeU16(h.planes) + EncodeU16(h.bitsPerPixel) + EncodeU32(h.compression)
      + EncodeU32(h.imageSize) + EncodeI32(h.xResolution) + EncodeI32(h.yResolution)
      + EncodeU32(h.nColours) + EncodeU32(h.importantColours)
  }

  /** The bytes of the packed struct, as fwrite emits them. */
  function EncodeHeader(h: Header): (r: seq<Byte>)
    ensures |r| == HEADER_SIZE
  {
    EncodeFileHeader(h) + EncodeInfoHeader(h)
  }

  /** The struct fread fills from 54 bytes. The magic check sees the
      on-disk bytes 'B' (0x42) then 'M' (0x4D), and width and height are
      negative exactly when the top bit of their last byte is set. */
  function DecodeHeader(b: seq<Byte>): (h: Header)
    requires |b| == HEADER_SIZE
    ensures h.fileType == BMP_MAGIC <==> b[0] == 0x42 && b[1] == 0x4D
    ensures h.widthPx < 0 <==> b[21] >= 0x80
    ensures h.heightPx < 0 <==> b[25] >= 0x80
  {
    Header(
      DecodeU16(b[0..2]), DecodeU32(b[2..6]), DecodeU16(b[6..8]), DecodeU16(b[8..10]),
      DecodeU32(b[10..14]), DecodeU32(b[14..18]), DecodeI32(b[18..22]), DecodeI32(b[22..26]),
      DecodeU16(b[26..28]), DecodeU16(b[28..30]), DecodeU32(b[30..34]), DecodeU32(b[34..38]),
      DecodeI32(b[38..42]), DecodeI32(b[42..46]), DecodeU32(b[46..50]), DecodeU32(b[50..54]))
  }

  /** Every field sits at its fixed byte offset of the packed layout. */
  lemma HeaderFieldOffsets(h: Header)
    ensures var r := EncodeHeader(h);
      && r[0..2] == EncodeU16(h.fileType)
      && r[2..6] == EncodeU32(h.size)
      && r[6..8] == EncodeU16(h.reserved1)
      && r[8..10] == EncodeU16(h.reserved2)
      && r[10..14] == EncodeU32(h.offset)
      && r[14..18] == EncodeU32(h.headerSize)
      && r[18..22] == EncodeI32(h.widthPx)
      && r[22..26] == EncodeI32(h.heightPx)
      && r[26..28] == EncodeU16(h.planes)
      && r[28..30] == EncodeU16(h.bitsPerPixel)
      && r[30..34] == EncodeU32(h.compression)
      && r[34..38] == EncodeU32(h.imageSize)
      && r[38..42] == EncodeI32(h.xResolution)
      && r[42..46] == EncodeI32(h.yResolution)
      && r[46..50] == EncodeU32(h.nColours)
      && r[50..54] == EncodeU32(h.importantColours)
  {
    var f := EncodeFileHeader(h);
    var i := EncodeInfoHeader(h);
    var r := EncodeHeader(h);
    assert r[..14] == f && r[14..] == i;
    assert f[0..2] == EncodeU16(h.fileType);
    assert f[2..6] == EncodeU32(h.size);
    assert f[6..8] == EncodeU16(h.reserved1);
    assert f[8..10] == EncodeU16(h.reserved2);
    assert f[10..14] == EncodeU32(h.offset);
    assert i[0..4] == EncodeU32(h.headerSize);
    assert i[4..8] == EncodeI32(h.widthPx);
    assert i[8..12] == EncodeI32(h.heightPx);
    assert i[12..14] == EncodeU16(h.planes);
    assert i[14..16] == EncodeU16(h.bitsPerPixel);
    assert i[16..20] == EncodeU32(h.compression);
    assert i[20..24] == EncodeU32(h.imageSize);
    assert i[24..28] == EncodeI32(h.xResolution);
    assert i[28..32] == EncodeI32(h.yResolution);
    assert i[32..36] == EncodeU32(h.nColours);
    assert i[36..40] == EncodeU32(h.importantColours);
  }

  /** Reading back the bytes of a written header gives the same header. */
  lemma {:induction false} HeaderRoundTrip(h: Header)
    ensures DecodeHeader(EncodeHeader(h)) == h
  {
    HeaderFieldOffsets(h);
    U16RoundTrip(h.fileType);
    U32RoundTrip(h.size);
    U16RoundTrip(h.reserved1);
    U16RoundTrip(h.reserved2);
    U32RoundTrip(h.offset);
    U32RoundTrip(h.headerSize);
    I32RoundTrip(h.widthPx);
    I32RoundTrip(h.heightPx);
    U16RoundTrip(h.planes);
    U16RoundTrip(h.bitsPerPixel);
    U32RoundTrip(h.compression);
    U32RoundTrip(h.imageSize);
    I32RoundTrip(h.xResolution);
    I32RoundTrip(h.yResolution);
    U32RoundTrip(h.nColours);
    U32RoundTrip(h.importantColours);
  }

  /** Writing back a header read from 54 bytes reproduces those bytes. */
  lemma {:induction false} HeaderBytesRoundTrip(b: seq<Byte>)
    requires |b| == HEADER_SIZE
    ensures EncodeHeader(DecodeHeader(b)) == b
  {
    var h := DecodeHeader(b);
    var r := EncodeHeader(h);
    HeaderFieldOffsets(h);
    U16BytesRoundTrip(b[0..2]);
    U32BytesRoundTrip(b[2..6]);
    U16BytesRoundTrip(b[6..8]);
    U16BytesRoundTrip(b[8..10]);
    U32BytesRoundTrip(b[10..14]);
    U32BytesRoundTrip(b[14..18]);
    I32BytesRoundTrip(b[18..22]);
    I32BytesRoundTrip(b[22..26]);
    U16BytesRoundTrip(b[26..28]);
    U16BytesRoundTrip(b[28..30]);
    U32BytesRoundTrip(b[30..34]);
    U32BytesRoundTrip(b[34..38]);
    I32BytesRoundTrip(b[38..42]);
    I32BytesRoundTrip(b[42..46]);
    U32BytesRoundTrip(b[46..50]);
    U32BytesRoundTrip(b[50..54]);
    forall k | 0 <= k < HEADER_SIZE
      ensures r[k] == b[k]
    {
      FieldByte(r, b, k);
    }
  }

  /** Two 54-byte sequences that agree on every field slice agree everywhere. */
  lemma FieldByte(r: seq<Byte>, b: seq<Byte>, k: nat)
    requires |r| == |b| == HEADER_SIZE && k < HEADER_SIZE
    requires r[0..2] == b[0..2] && r[2..6] == b[2..6] && r[6..8] == b[6..8]
    requires r[8..10] == b[8..10] && r[10..14] == b[10..14] && r[14..18] == b[14..18]
    requires r[18..22] == b[18..22] && r[22..26] == b[22..26] && r[26..28] == b[26..28]
    requires r[28..30] == b[28..30] && r[30..34] == b[30..34] && r[34..38] == b[34..38]
    requires r[38..42] == b[38..42] && r[42..46] == b[42..46] && r[46..50] == b[46..50]
    requires r[50..54] == b[50..54]
    ensures r[k] == b[k]
  {
    var lo := if k < 2 then 0 else if k < 6 then 2 else if k < 8 then 6 else if k < 10 then 8
      else if k < 14 then 10 else if k < 18 then 14 else if k < 22 then 18 else if k < 26 then 22
      else if k < 28 then 26 else if k < 30 then 28 else if k < 34 then 30 else if k < 38 then 34
      else if k < 42 then 38 else if k < 46 then 42 else if k < 50 then 46 else 50;
    var hi := if k < 2 then 2 else if k < 6 then 6 else if k < 8 then 8 else if k < 10 then 10
      else if k < 14 then 14 else if k < 18 then 18 else if k < 22 then 22 else if k < 26 then 26
      else if k < 28 then 28 else if k < 30 then 30 else if k < 34 then 34 else if k < 38 then 38
      else if k < 42 then 42 else if k < 46 then 46 else if k < 50 then 50 else 54;
    assert r[lo..hi][k - lo] == b[lo..hi][k - lo];
  }

  // ---- pixels ----------------------------------------------------------

  function EncodePixel(p: Pixel): (r: seq<Byte>)
    ensures |r| == PIXEL_SIZE
  {
    [p.blue, p.green, p.red, p.alpha]
  }

  /** Bytes 0 .. 3 are blue, green, red and alpha; re-encoding the pixel
      gives the same 4 bytes back. */
  function DecodePixel(b: seq<Byte>): (p: Pixel)
    requires |b| == PIXEL_SIZE
    ensures p.blue == b[0] && p.green == b[1] && p.red == b[2] && p.alpha == b[3]
    ensures EncodePixel(p) == b
  {
    Pixel(b[0], b[1], b[2], b[3])
  }

  lemma PixelRoundTrip(p: Pixel)
    ensures DecodePixel(EncodePixel(p)) == p
  {
  }

  /** A row of pixels as fwrite emits it: the pixels' bytes back to back. */
  function EncodePixels(ps: seq<Pixel>): (r: seq<Byte>)
    ensures |r| == PIXEL_SIZE * |ps|
  {
    if ps == [] then [] else EncodePixels(ps[..|ps| - 1]) + EncodePixel(ps[|ps| - 1])
  }

  /** Pixel k of a row occupies bytes 4k .. 4k+4 of its encoding. */
  lemma {:induction false} EncodePixelsAt(ps: seq<Pixel>, k: nat)
    requires k < |ps|
    ensures PIXEL_SIZE * k + PIXEL_SIZE <= |EncodePixels(ps)|
    ensures EncodePixels(ps)[PIXEL_SIZE * k .. PIXEL_SIZE * k + PIXEL_SIZE] == EncodePixel(ps[k])
  {
    var n := |ps| - 1;
    var front := EncodePixels(ps[..n]);
    assert EncodePixels(ps) == front + EncodePixel(ps[n]);
    if k < n {
      EncodePixelsAt(ps[..n], k);
      assert ps[..n][k] == ps[k];
    } else {
      assert |front| == PIXEL_SIZE * k;
    }
  }
}
