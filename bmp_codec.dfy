/** bmp.c: the magic check, readImage / readImageData (header copied
    verbatim into the shared region, height normalised, bounds checked, then
    `height` rows of `width` 4-byte pixels read from `offset` on) and
    writeImage (the mirror image). Undefined behaviour of the C code is an
    explicit outcome rather than a precondition. */
module BmpCodec {
  import opened BmpFormat
  import opened SharedMemory
  import opened Streams

  /** readImage / writeImage return 0 (Success) or -1 after printError
      (Failure carries the code printed); Undefined marks the paths on which
      the C code has undefined behaviour. */
  datatype Status = Success | Failure(error: Error) | Undefined

  /** checkBMPValid: only the magic tag is consulted; a header passes
      exactly when its tag field, stored at offset 0 (HeaderFieldOffsets),
      is the bytes 'B' then 'M'. */
  function CheckBMPValid(h: Header): (valid: bool)
    ensures valid <==> EncodeU16(h.fileType) == [0x42, 0x4D]
  {
    U16RoundTrip(h.fileType);
    h.fileType == BMP_MAGIC
  }

  /** A header whose magic is intact passes, whatever its other fields hold. */
  lemma CheckBMPValidMagicOnly(h: Header, h': Header)
    requires h.fileType == h'.fileType
    ensures CheckBMPValid(h) == CheckBMPValid(h')
  {
  }

  /** The height replaced by its absolute value (bmp.c:58); negating INT32_MIN overflows. */
  function Normalize(h: Header): (r: Header)
    requires h.heightPx != INT32_MIN
    ensures r.heightPx >= 0 && (r.heightPx == h.heightPx || r.heightPx == -h.heightPx)
    ensures r == h.(heightPx := r.heightPx)
  {
    h.(heightPx := if h.heightPx < 0 then -h.heightPx else h.heightPx)
  }

  lemma NormalizeIdempotent(h: Header)
    requires h.heightPx != INT32_MIN
    ensures Normalize(Normalize(h)) == Normalize(h)
    ensures h.heightPx >= 0 ==> Normalize(h) == h
  {
  }

  // ---- where the pixels lie in the file ---------------------------------

  /** Byte position just after the first y complete rows of a w-pixel-wide
      image whose first row starts at `start`: start + 4 * w * y (RowsEndClosed). */
  function RowsEnd(start: int, w: int, y: nat): (r: int)
    ensures 0 <= w ==> start <= r
  {
    if y == 0 then start else RowsEnd(start, w, y - 1) + PIXEL_SIZE * w
  }

  /** File position of pixel (y, x). */
  function CellPos(start: int, w: int, y: nat, x: int): int
  {
    RowsEnd(start, w, y) + PIXEL_SIZE * x
  }

  predicate CellPresent(d: seq<Byte>, start: nat, w: int, y: nat, x: int)
  {
    0 <= CellPos(start, w, y, x) && CellPos(start, w, y, x) + PIXEL_SIZE <= |d|
  }

  function CellBytes(d: seq<Byte>, start: nat, w: int, y: nat, x: int): (r: seq<Byte>)
    requires CellPresent(d, start, w, y, x)
    ensures |r| == PIXEL_SIZE
  {
    d[CellPos(start, w, y, x)..CellPos(start, w, y, x) + PIXEL_SIZE]
  }

  /** The pixel fread stores for cell (y, x). */
  function CellPixel(d: seq<Byte>, start: nat, w: int, y: nat, x: int): Pixel
    requires CellPresent(d, start, w, y, x)
  {
    DecodePixel(CellBytes(d, start, w, y, x))
  }

  lemma RowsEndNext(start: int, w: int, y: nat)
    ensures RowsEnd(start, w, y + 1) == RowsEnd(start, w, y) + PIXEL_SIZE * w
  {
  }

  /** The rows are laid out back to back: y rows of 4 * w bytes each. */
  lemma {:induction false} RowsEndClosed(start: int, w: int, y: nat)
    ensures RowsEnd(start, w, y) == start + PIXEL_SIZE * (w * y)
  {
    if y > 0 {
      RowsEndClosed(start, w, y - 1);
      assert w * y == w * (y - 1) + w;
    }
  }

  lemma MulMono(a: int, b: int, c: int)
    requires 0 <= a && b <= c
    ensures a * b <= a * c
  {
    assert a * c - a * b == a * (c - b);
  }

  /** Monotonicity of the row arithmetic for a non-negative width. */
  lemma {:induction false} RowsEndMono(start: int, w: int, y: nat, y': nat)
    requires 0 <= w && y <= y'
    ensures RowsEnd(start, w, y) <= RowsEnd(start, w, y')
  {
    if y < y' {
      RowsEndMono(start, w, y, y' - 1);
    }
  }

  /** A cell of row y lies in the row's byte range. */
  lemma CellInRow(start: int, w: int, y: nat, x: int)
    requires 0 <= x < w
    ensures CellPos(start, w, y, x) == RowsEnd(start, w, y) + PIXEL_SIZE * x
    ensures CellPos(start, w, y, x) + PIXEL_SIZE <= RowsEnd(start, w, y + 1)
  {
    RowsEndNext(start, w, y);
  }

  /** A cell of row y lies inside the first y' rows once y < y', and after them once y' <= y. */
  lemma CellAgainstRows(start: int, w: int, y: nat, x: int, y': nat)
    requires 0 <= x < w
    ensures y < y' ==> CellPos(start, w, y, x) + PIXEL_SIZE <= RowsEnd(start, w, y')
    ensures y' <= y ==> RowsEnd(start, w, y') <= CellPos(start, w, y, x)
  {
    CellInRow(start, w, y, x);
    if y < y' {
      RowsEndMono(start, w, y + 1, y');
    } else {
      RowsEndMono(start, w, y', y);
    }
  }

  // ---- reading -----------------------------------------------------------

  /** The state of a plane after a read, against the state before it: cell
      (y, x) of the h x w window holds the file's pixel when the file reaches
      that far, and every other cell is as before. */
  twostate predicate Loaded(p: array2<Pixel>, d: seq<Byte>, start: nat, h: int, w: int)
    reads p
  {
    forall y, x | 0 <= y < p.Length0 && 0 <= x < p.Length1 ::
      p[y, x] == if y < h && x < w && CellPresent(d, start, w, y, x)
                 then CellPixel(d, start, w, y, x) else old(p[y, x])
  }

  /** The first w pixels of row y of a plane: what fwrite(pixels[y], sizeof(Pixel), w, f) emits. */
  function Row(p: array2<Pixel>, y: int, w: nat): (r: seq<Pixel>)
    reads p
    requires 0 <= y < p.Length0 && w <= p.Length1
    ensures |r| == w && forall x | 0 <= x < w :: r[x] == p[y, x]
  {
    seq(w, x requires 0 <= x < w reads p => p[y, x])
  }

  /** The h x w window of a plane, as a sequence of rows. */
  function Snapshot(p: array2<Pixel>, h: nat, w: nat): (r: seq<seq<Pixel>>)
    reads p
    requires h <= p.Length0 && w <= p.Length1
    ensures |r| == h
    ensures forall y | 0 <= y < h :: r[y] == Row(p, y, w)
  {
    seq(h, y requires 0 <= y < h reads p => Row(p, y, w))
  }

  /** A slice of a slice is a slice. */
  lemma SubSlice(s: seq<Byte>, a: nat, b: nat, i: nat, j: nat)
    requires a <= b <= |s| && i <= j <= b - a
    ensures s[a..b][i..j] == s[a + i..a + j]
  {
    var l, r := s[a..b][i..j], s[a + i..a + j];
    forall k | 0 <= k < j - i
      ensures l[k] == r[k]
    {
      assert l[k] == s[a..b][i + k];
    }
  }

  /** Of a read of `count` pixels at `start` in a file of `len` bytes that
      delivers b bytes, pixel x is complete exactly when the file holds it. */
  lemma PixelsRead(len: nat, start: nat, count: nat, b: nat)
    requires b == (if start < len then Min(PIXEL_SIZE * count, len - start) else 0)
    ensures b / PIXEL_SIZE <= count && PIXEL_SIZE * (b / PIXEL_SIZE) <= b
    ensures b > 0 ==> start + b <= len
    ensures forall x | 0 <= x < count :: x < b / PIXEL_SIZE <==> start + PIXEL_SIZE * x + PIXEL_SIZE <= len
  {
  }

  /** fread(pixels[y], sizeof(Pixel), count, src): the complete pixels left in
      the file, at most count, go to pixels[y][0 ..]; n is how many. */
  method FreadRow(src: Stream, p: array2<Pixel>, y: int, count: nat) returns (n: nat)
    requires 0 <= y < p.Length0 && count <= p.Length1
    modifies p, src`pos
    ensures n <= count
    ensures src.pos == old(src.pos) + |Window(src.data, old(src.pos), PIXEL_SIZE * count)|
    ensures forall x | 0 <= x < count :: x < n <==> old(src.pos) + PIXEL_SIZE * x + PIXEL_SIZE <= |src.data|
    ensures forall yy, xx | 0 <= yy < p.Length0 && 0 <= xx < p.Length1 ::
      p[yy, xx] == if yy == y && xx < n
                   then DecodePixel(src.data[old(src.pos) + PIXEL_SIZE * xx..old(src.pos) + PIXEL_SIZE * xx + PIXEL_SIZE])
                   else old(p[yy, xx])
  {
    var start := src.pos;
    var bytes := src.Read(PIXEL_SIZE * count);
    n := |bytes| / PIXEL_SIZE;
    PixelsRead(|src.data|, start, count, |bytes|);
    forall x | 0 <= x < n {
      p[y, x] := DecodePixel(bytes[PIXEL_SIZE * x..PIXEL_SIZE * x + PIXEL_SIZE]);
    }
    forall x | 0 <= x < n
      ensures bytes[PIXEL_SIZE * x..PIXEL_SIZE * x + PIXEL_SIZE]
              == src.data[start + PIXEL_SIZE * x..start + PIXEL_SIZE * x + PIXEL_SIZE]
    {
      SubSlice(src.data, start, start + |bytes|, PIXEL_SIZE * x, PIXEL_SIZE * x + PIXEL_SIZE);
    }
  }

  /** readImageData: rows 0 .. height-1, each a fread of width pixels into pixels[y]. */
  method ReadImageData(src: Stream, shared: SharedData, dataSize: int) returns (status: Status)
    requires shared.Valid()
    requires 0 <= shared.header.heightPx <= MAX_HEIGHT && shared.header.widthPx <= MAX_WIDTH
    modifies shared.pixels, src`pos
    ensures var h, w := shared.header.heightPx, shared.header.widthPx;
      && (status == Undefined <==> w < 0 && h > 0)
      && (0 <= w || h == 0 ==>
            && status == (if w == 0 || h == 0 || RowsEnd(old(src.pos), w, h) <= |src.data|
                          then Success else Failure(FileError))
            && Loaded(shared.pixels, src.data, old(src.pos), h, w))
  {
    ghost var start := src.pos;
    ghost var d := src.data;
    var h, w := shared.header.heightPx, shared.header.widthPx;
    var y := 0;
    while y < h
      invariant 0 <= y <= h
      invariant y > 0 ==> 0 <= w
      invariant src.pos == RowsEnd(start, w, y)
      invariant y > 0 && w > 0 ==> RowsEnd(start, w, y) <= |d|
      invariant forall yy, xx | 0 <= yy < y && 0 <= xx < w :: CellPresent(d, start, w, yy, xx)
      invariant forall yy, xx | 0 <= yy < MAX_HEIGHT && 0 <= xx < MAX_WIDTH ::
        shared.pixels[yy, xx] == if yy < y && xx < w && CellPresent(d, start, w, yy, xx)
                                 then CellPixel(d, start, w, yy, xx) else old(shared.pixels[yy, xx])
    {
      if w < 0 {
        // fread is handed (size_t)width, far more pixels than pixels[y] holds
        return Undefined;
      }
      var n := ReadRow(src, shared.pixels, start, w, y);
      if n != w {
        RowsEndMono(start, w, y + 1, h);
        return Failure(FileError);
      }
      RowsEndNext(start, w, y);
      y := y + 1;
    }
    if 0 < w && 0 < h {
      assert RowsEnd(start, w, h) <= |d|;
    }
    status := Success;
  }

  /** One iteration of readImageData's loop: row y of the file, as far as
      it reaches, goes to row y of the plane. */
  method ReadRow(src: Stream, p: array2<Pixel>, ghost start: nat, w: int, y: nat) returns (n: nat)
    requires y < p.Length0 && 0 <= w <= p.Length1
    requires src.pos == RowsEnd(start, w, y)
    modifies p, src`pos
    ensures n <= w
    ensures forall x | 0 <= x < w :: CellPresent(src.data, start, w, y, x) <==> x < n
    ensures n < w ==> forall yy, xx | y < yy && 0 <= xx < w :: !CellPresent(src.data, start, w, yy, xx)
    ensures n == w ==> src.pos == RowsEnd(start, w, y + 1) && (w == 0 || RowsEnd(start, w, y + 1) <= |src.data|)
    ensures n < w ==> |src.data| < RowsEnd(start, w, y + 1)
    ensures forall yy, xx | 0 <= yy < p.Length0 && 0 <= xx < p.Length1 ::
      p[yy, xx] == if yy == y && xx < w && CellPresent(src.data, start, w, y, xx)
                   then CellPixel(src.data, start, w, y, xx) else old(p[yy, xx])
  {
    n := FreadRow(src, p, y, w);
    RowFacts(src.data, start, w, y, n);
    RowsEndNext(start, w, y);
  }

  /** What one fread of row y, returning n of w pixels, says about the cells. */
  lemma RowFacts(d: seq<Byte>, start: nat, w: int, y: int, n: nat)
    requires 0 <= y && 0 <= n <= w
    requires forall x | 0 <= x < w :: x < n <==> RowsEnd(start, w, y) + PIXEL_SIZE * x + PIXEL_SIZE <= |d|
    ensures forall x | 0 <= x < w :: CellPresent(d, start, w, y, x) <==> x < n
    ensures forall x | 0 <= x < n ::
      (CellPixel(d, start, w, y, x)
       == DecodePixel(d[RowsEnd(start, w, y) + PIXEL_SIZE * x..RowsEnd(start, w, y) + PIXEL_SIZE * x + PIXEL_SIZE]))
    ensures n < w ==> forall yy, xx | y < yy && 0 <= xx < w :: !CellPresent(d, start, w, yy, xx)
    ensures n == w ==> RowsEnd(start, w, y + 1) <= |d| || w == 0
    ensures n < w ==> |d| < RowsEnd(start, w, y + 1)
  {
    forall x | 0 <= x < w
      ensures CellPos(start, w, y, x) == RowsEnd(start, w, y) + PIXEL_SIZE * x
    {
      CellInRow(start, w, y, x);
    }
    if n < w {
      forall yy, xx | y < yy && 0 <= xx < w
        ensures !CellPresent(d, start, w, yy, xx)
      {
        CellAgainstRows(start, w, yy, xx, y + 1);
        CellInRow(start, w, y, n);
      }
    }
    if n == w && w > 0 {
      CellInRow(start, w, y, w - 1);
    }
    if n < w {
      CellInRow(start, w, y, n);
      RowsEndNext(start, w, y);
    }
  }

  /** readImage on a stream positioned at the start of a BMP file. */
  method ReadImage(src: Stream, shared: SharedData) returns (status: Status)
    requires shared.Valid()
    modifies shared`header, shared.pixels, src`pos
    ensures src.data == old(src.data)
    ensures status == Success ==> Fits(shared.header)
    ensures var hb := Window(src.data, old(src.pos), HEADER_SIZE);
      if |hb| < HEADER_SIZE then
        // the header is only partly read: its contents are indeterminate
        status == Failure(FileError) && unchanged(shared.pixels)
      else
        var raw := DecodeHeader(hb);
        if !CheckBMPValid(raw) then
          status == Failure(ValidError) && shared.header == raw && unchanged(shared.pixels)
        else if raw.heightPx == INT32_MIN then
          status == Undefined
        else
          var hd := Normalize(raw);
          shared.header == hd &&
          if hd.widthPx > MAX_WIDTH || hd.heightPx > MAX_HEIGHT then
            status == Failure(ValidError) && unchanged(shared.pixels)
          else if !src.seekable then
            status == Failure(FileError) && unchanged(shared.pixels)
          else if hd.widthPx < 0 && hd.heightPx > 0 then
            status == Undefined
          else
            && status == (if hd.widthPx == 0 || hd.heightPx == 0
                             || RowsEnd(hd.offset, hd.widthPx, hd.heightPx) <= |src.data|
                          then Success else Failure(FileError))
            && Loaded(shared.pixels, src.data, hd.offset, hd.heightPx, hd.widthPx)
  {
    var hb := src.Read(HEADER_SIZE);
    if |hb| != HEADER_SIZE {
      shared.header := *;
      return Failure(FileError);
    }
    shared.header := DecodeHeader(hb);
    if !CheckBMPValid(shared.header) {
      return Failure(ValidError);
    }
    if shared.header.heightPx == INT32_MIN {
      // -INT32_MIN does not fit in an int32_t
      return Undefined;
    }
    shared.header := Normalize(shared.header);
    if shared.header.widthPx > MAX_WIDTH || shared.header.heightPx > MAX_HEIGHT {
      return Failure(ValidError);
    }
    var ok := src.Seek(shared.header.offset);
    if !ok {
      return Failure(FileError);
    }
    ProductFits(shared.header);
    var dataSize := shared.header.widthPx * shared.header.heightPx;
    if !(INT32_MIN <= dataSize < 0x8000_0000) {
      // signed overflow of width * height
      return Undefined;
    }
    assert forall y, x | 0 <= y < MAX_HEIGHT && 0 <= x < MAX_WIDTH ::
      shared.pixels[y, x] == old(shared.pixels[y, x]);
    status := ReadImageData(src, shared, dataSize);
  }

  /** Within the capacity, width * height cannot overflow an int32. */
  lemma ProductFits(hd: Header)
    requires 0 <= hd.heightPx <= MAX_HEIGHT && hd.widthPx <= MAX_WIDTH
    ensures 0 <= hd.widthPx ==> 0 <= hd.widthPx * hd.heightPx <= MAX_WIDTH * MAX_HEIGHT
    ensures hd.heightPx == 0 ==> hd.widthPx * hd.heightPx == 0
  {
    var w, h := hd.widthPx, hd.heightPx;
    if 0 <= w {
      assert w * h == h * w;
      MulMono(h, 0, w);
      MulMono(h, w, MAX_WIDTH);
      assert h * MAX_WIDTH == MAX_WIDTH * h;
      MulMono(MAX_WIDTH, h, MAX_HEIGHT);
    }
  }

  // ---- writing -----------------------------------------------------------

  /** `d` is what writeImage has written once rows 0 .. y-1 are out: the
      header bytes at 0, except where rows overwrite them, and pixel (yy, x)
      at offset + 4(w*yy + x). A seek alone does not extend the file, and the
      bytes of a hole between the header and `offset` are not fixed. */
  ghost predicate RowsWritten(d: seq<Byte>, hd: Header, rows: seq<seq<Pixel>>, y: nat)
    requires 0 <= y <= |rows| && forall r | 0 <= r < |rows| :: |rows[r]| == hd.widthPx
  {
    var w := hd.widthPx;
    && |d| == (if w == 0 || y == 0 then HEADER_SIZE else Max(HEADER_SIZE, RowsEnd(hd.offset, w, y)))
    && (forall i | 0 <= i < HEADER_SIZE && !(hd.offset <= i < RowsEnd(hd.offset, w, y)) ::
          d[i] == EncodeHeader(hd)[i])
    && (forall yy, x | 0 <= yy < y && 0 <= x < w ::
          CellPresent(d, hd.offset, w, yy, x) && CellBytes(d, hd.offset, w, yy, x) == EncodePixel(rows[yy][x]))
  }

  /** The file writeImage leaves for header hd and the rows of its image. */
  ghost predicate Written(d: seq<Byte>, hd: Header, rows: seq<seq<Pixel>>)
    requires Fits(hd)
    requires |rows| == hd.heightPx && forall y | 0 <= y < |rows| :: |rows[y]| == hd.widthPx
  {
    RowsWritten(d, hd, rows, hd.heightPx)
  }

  /** A cell of an earlier row is untouched by a write that starts after it. */
  lemma EarlierCellKept(before: seq<Byte>, after: seq<Byte>, off: nat, w: int, y: nat, yy: nat, x: int)
    requires 0 <= yy < y && 0 <= x < w
    requires CellPresent(before, off, w, yy, x) && |before| <= |after|
    requires forall i | 0 <= i < |before| && RowsEnd(off, w, y) > i :: after[i] == before[i]
    ensures CellPresent(after, off, w, yy, x)
    ensures CellBytes(after, off, w, yy, x) == CellBytes(before, off, w, yy, x)
  {
    CellAgainstRows(off, w, yy, x, y);
  }

  /** A cell of the row just written holds the encoding of its pixel. */
  lemma NewCellWritten(after: seq<Byte>, off: nat, w: int, y: nat, x: int, row: seq<Pixel>)
    requires 0 <= x < w && |row| == w
    requires 0 <= RowsEnd(off, w, y) && RowsEnd(off, w, y) + PIXEL_SIZE * w <= |after|
    requires after[RowsEnd(off, w, y)..RowsEnd(off, w, y) + PIXEL_SIZE * w] == EncodePixels(row)
    ensures CellPresent(after, off, w, y, x)
    ensures CellBytes(after, off, w, y, x) == EncodePixel(row[x])
  {
    var pos := RowsEnd(off, w, y);
    EncodePixelsAt(row, x);
    SubSlice(after, pos, pos + PIXEL_SIZE * w, PIXEL_SIZE * x, PIXEL_SIZE * x + PIXEL_SIZE);
  }

  /** One more row written at the end of the previous ones keeps RowsWritten. */
  lemma WriteRowStep(before: seq<Byte>, after: seq<Byte>, hd: Header, rows: seq<seq<Pixel>>, y: nat)
    requires 0 <= y < |rows| && 0 <= hd.widthPx
    requires forall r | 0 <= r < |rows| :: |rows[r]| == hd.widthPx
    requires RowsWritten(before, hd, rows, y)
    requires var pos, n := RowsEnd(hd.offset, hd.widthPx, y), PIXEL_SIZE * hd.widthPx;
      && |after| == (if n == 0 then |before| else Max(|before|, pos + n))
      && (n > 0 ==> after[pos..pos + n] == EncodePixels(rows[y]))
      && (forall i | 0 <= i < |before| && !(pos <= i < pos + n) :: after[i] == before[i])
    ensures RowsWritten(after, hd, rows, y + 1)
  {
    var w, off := hd.widthPx, hd.offset;
    var pos, next := RowsEnd(off, w, y), RowsEnd(off, w, y + 1);
    RowsEndNext(off, w, y);
    assert |after| == (if w == 0 then HEADER_SIZE else Max(HEADER_SIZE, next));
    forall i | 0 <= i < HEADER_SIZE && !(off <= i < next)
      ensures after[i] == EncodeHeader(hd)[i]
    {
      assert i < |before| && !(off <= i < pos);
    }
    forall yy, x | 0 <= yy < y + 1 && 0 <= x < w
      ensures CellPresent(after, off, w, yy, x)
      ensures CellBytes(after, off, w, yy, x) == EncodePixel(rows[yy][x])
    {
      if yy == y {
        NewCellWritten(after, off, w, y, x, rows[y]);
      } else {
        EarlierCellKept(before, after, off, w, y, yy, x);
      }
    }
  }

  /** One iteration of writeImage's loop: fwrite(pixels[y], sizeof(Pixel), width, f);
      ok is false when fewer than width pixels went out. */
  method WriteRow(dest: Stream, p: array2<Pixel>, hd: Header, y: nat, ghost rows: seq<seq<Pixel>>) returns (ok: bool)
    requires y < |rows| <= p.Length0 && 0 <= hd.widthPx <= p.Length1
    requires forall r | 0 <= r < |rows| :: rows[r] == Row(p, r, hd.widthPx) && |rows[r]| == hd.widthPx
    requires dest.pos == RowsEnd(hd.offset, hd.widthPx, y)
    requires RowsWritten(dest.data, hd, rows, y)
    modifies dest
    ensures ok == (hd.widthPx == 0 || RowsEnd(hd.offset, hd.widthPx, y + 1) <= dest.limit)
    ensures ok ==> dest.pos == RowsEnd(hd.offset, hd.widthPx, y + 1) && RowsWritten(dest.data, hd, rows, y + 1)
  {
    var w := hd.widthPx;
    var bytes := EncodePixels(Row(p, y, w));
    ghost var before := dest.data;
    var n := dest.Write(bytes);
    RowsEndNext(hd.offset, w, y);
    ok := n == PIXEL_SIZE * w;
    if ok {
      WriteRowStep(before, dest.data, hd, rows, y);
    }
  }

  /** writeImage: `dest` is the stream fopen(destFileName, "wb") returns, null when it fails. */
  method WriteImage(dest: Stream?, shared: SharedData) returns (status: Status)
    requires shared.Valid() && Fits(shared.header)
    modifies dest
    ensures var hd := shared.header;
      status == (if && dest != null && HEADER_SIZE <= dest.limit && dest.seekable
                    && (hd.widthPx == 0 || hd.heightPx == 0 || RowsEnd(hd.offset, hd.widthPx, hd.heightPx) <= dest.limit)
                 then Success else Failure(FileError))
    ensures status == Success ==>
      dest != null && Written(dest.data, shared.header,
                              Snapshot(shared.pixels, shared.header.heightPx, if shared.header.heightPx == 0 then 0 else shared.header.widthPx))
  {
    if dest == null {
      return Failure(FileError);
    }
    dest.Truncate();
    var hd := shared.header;
    var hb := EncodeHeader(hd);
    var written := dest.Write(hb);
    if written != HEADER_SIZE {
      return Failure(FileError);
    }
    assert dest.data == hb;
    assert RowsWritten(dest.data, hd, [], 0);
    var ok := dest.Seek(hd.offset);
    if !ok {
      return Failure(FileError);
    }
    status := WriteRows(dest, shared);
  }

  /** The loop of writeImage: rows 0 .. height-1, each an fwrite of width
      pixels, after the header is out and the stream is at the offset. */
  method WriteRows(dest: Stream, shared: SharedData) returns (status: Status)
    requires shared.Valid() && Fits(shared.header)
    requires dest.pos == shared.header.offset
    requires RowsWritten(dest.data, shared.header, [], 0)
    modifies dest
    ensures var hd := shared.header;
      status == (if hd.widthPx == 0 || hd.heightPx == 0 || RowsEnd(hd.offset, hd.widthPx, hd.heightPx) <= dest.limit
                 then Success else Failure(FileError))
    ensures status == Success ==>
      Written(dest.data, shared.header,
              Snapshot(shared.pixels, shared.header.heightPx, if shared.header.heightPx == 0 then 0 else shared.header.widthPx))
  {
    var hd := shared.header;
    var h, w := hd.heightPx, hd.widthPx;
    ghost var rows := Snapshot(shared.pixels, h, if h == 0 then 0 else w);
    var y := 0;
    while y < h
      invariant 0 <= y <= h && (0 < h ==> 0 <= w)
      invariant dest.pos == RowsEnd(hd.offset, w, y)
      invariant RowsWritten(dest.data, hd, rows, y)
      invariant y > 0 && w > 0 ==> RowsEnd(hd.offset, w, y) <= dest.limit
    {
      var ok := WriteRow(dest, shared.pixels, hd, y, rows);
      if !ok {
        RowsEndMono(hd.offset, w, y + 1, h);
        return Failure(FileError);
      }
      y := y + 1;
    }
    status := Success;
  }

  /** The first 54 bytes of a written file are the header, once the pixel
      data starts past them. */
  lemma WrittenHeader(d: seq<Byte>, hd: Header, rows: seq<seq<Pixel>>)
    requires Fits(hd) && HEADER_SIZE <= hd.offset
    requires |rows| == hd.heightPx && forall y | 0 <= y < |rows| :: |rows[y]| == hd.widthPx
    requires Written(d, hd, rows)
    ensures HEADER_SIZE <= |d| && d[..HEADER_SIZE] == EncodeHeader(hd)
  {
    forall i | 0 <= i < HEADER_SIZE
      ensures d[i] == EncodeHeader(hd)[i]
    {
      assert !(hd.offset <= i);
    }
  }

  /** Round trip: reading back what writeImage wrote, for a header whose
      offset clears the header bytes, yields the same header and the same
      pixels, and the read succeeds. */
  lemma {:induction false} ReadAfterWrite(d: seq<Byte>, hd: Header, rows: seq<seq<Pixel>>)
    requires Fits(hd) && CheckBMPValid(hd) && HEADER_SIZE <= hd.offset
    requires |rows| == hd.heightPx && forall y | 0 <= y < |rows| :: |rows[y]| == hd.widthPx
    requires Written(d, hd, rows)
    ensures |Window(d, 0, HEADER_SIZE)| == HEADER_SIZE
    ensures DecodeHeader(Window(d, 0, HEADER_SIZE)) == hd
    ensures hd.heightPx != INT32_MIN && Normalize(hd) == hd
    ensures hd.widthPx == 0 || hd.heightPx == 0 || RowsEnd(hd.offset, hd.widthPx, hd.heightPx) <= |d|
    ensures forall y, x | 0 <= y < hd.heightPx && 0 <= x < hd.widthPx ::
      CellPresent(d, hd.offset, hd.widthPx, y, x) && CellPixel(d, hd.offset, hd.widthPx, y, x) == rows[y][x]
  {
    var w, h := hd.widthPx, hd.heightPx;
    WrittenHeader(d, hd, rows);
    HeaderRoundTrip(hd);
    forall y, x | 0 <= y < h && 0 <= x < w
      ensures CellPixel(d, hd.offset, w, y, x) == rows[y][x]
    {
      PixelRoundTrip(rows[y][x]);
    }
  }

  /** The round trip through the file system: writeImage, then readImage of
      the file it wrote into a new region. When the write succeeds, so does
      the read, and it yields the same header and the same pixels. */
  method WriteThenRead(dest: Stream, shared: SharedData) returns (written: Status, back: SharedData, read: Status)
    requires shared.Valid() && Fits(shared.header) && CheckBMPValid(shared.header) && HEADER_SIZE <= shared.header.offset
    modifies dest
    ensures fresh(back) && back.Valid()
    ensures var hd := shared.header;
      written == (if && HEADER_SIZE <= dest.limit && dest.seekable
                     && (hd.widthPx == 0 || hd.heightPx == 0 || RowsEnd(hd.offset, hd.widthPx, hd.heightPx) <= dest.limit)
                  then Success else Failure(FileError))
    ensures written == Success ==>
      && read == Success
      && back.header == shared.header
      && forall y, x | 0 <= y < shared.header.heightPx && 0 <= x < shared.header.widthPx ::
           back.pixels[y, x] == shared.pixels[y, x]
  {
    back := new SharedData();
    written := WriteImage(dest, shared);
    if written != Success {
      read := written;
      return;
    }
    var hd := shared.header;
    ghost var rows := Snapshot(shared.pixels, hd.heightPx, if hd.heightPx == 0 then 0 else hd.widthPx);
    read := ReadBack(dest.data, back, hd, rows);
  }

  /** readImage of a file holding what writeImage wrote for header hd and
      the given rows, into the region `back`: it succeeds with header hd and
      row y of the plane holding rows[y]. */
  method ReadBack(d: seq<Byte>, back: SharedData, ghost hd: Header, ghost rows: seq<seq<Pixel>>) returns (read: Status)
    requires back.Valid() && Fits(hd) && CheckBMPValid(hd) && HEADER_SIZE <= hd.offset
    requires |rows| == hd.heightPx && forall y | 0 <= y < |rows| :: |rows[y]| == hd.widthPx
    requires Written(d, hd, rows)
    modifies back`header, back.pixels
    ensures read == Success && back.header == hd
    ensures forall y, x | 0 <= y < hd.heightPx && 0 <= x < hd.widthPx :: back.pixels[y, x] == rows[y][x]
  {
    ReadAfterWrite(d, hd, rows);
    var src := new Stream.Open(d, true, |d|);
    read := ReadImage(src, back);
    assert back.header == hd;
    forall y, x | 0 <= y < hd.heightPx && 0 <= x < hd.widthPx
      ensures back.pixels[y, x] == rows[y][x]
    {
      assert back.pixels[y, x] == CellPixel(d, hd.offset, hd.widthPx, y, x);
    }
  }
}
