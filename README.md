# BMP filter pipeline: codec, shared region and pixel kernels

This project models, in Dafny, the sequential core of a small image pipeline.
A publisher process reads a 32-bit BMP file into a fixed-size shared-memory
region. Two worker processes compute a 3 x 3 box blur and an edge
enhancement of it into two further planes, and a combiner writes the mean of
those two planes back into the original plane. It then writes out the file.

The modules follow the source files:

- `BmpFormat` (bmp.h) holds the packed 54-byte header record (a 14-byte
  BITMAPFILEHEADER followed by a 40-byte BITMAPINFOHEADER), the 4-byte pixel
  (blue, green, red, alpha) and the error codes. It also holds their
  little-endian byte encodings, with round trips in both directions.
- `SharedMemory` (common.h) holds the capacity constants, the byte layout of
  the region and the class `SharedData`. The class has a header field and
  three `MAX_HEIGHT x MAX_WIDTH` planes (`array2<Pixel>`).
- `Streams` models the C `FILE` stream that bmp.c reads and writes: the
  file's bytes, the position indicator, whether it can seek, and the size of
  the device being written.
- `BmpCodec` (bmp.c) holds `checkBMPValid`, `readImage`, `readImageData`
  and `writeImage` as methods on a stream and the shared region. It also
  proves that reading back a written file returns the same header and
  pixels.
- `Neighbourhood` holds the 3 x 3 window loops that both filters share, and
  the sums they compute.
- `Blur` (desenfocador.c) holds `apply_blur`.
- `EdgeEnhance` (realzador.c) holds `apply_edge_enhance`.
- `Combiner` (combinador.c) holds `combine_images`.

A read ends in one of three outcomes, held in `Status`:

- `Success` is the C return 0.
- `Failure(e)` is the C return -1 after `printError(e)`.
- `Undefined` marks the paths on which the C code has undefined behaviour.
  There are three:
  - negating a height of `INT32_MIN` (bmp.c:58);
  - a `width * height` that overflows `int` (bmp.c:70), which is possible
    only for a negative width;
  - `fread` being handed a negative width converted to `size_t` (bmp.c:39),
    which asks for more pixels than `pixels[y]` holds, which the C standard
    leaves undefined.

  The width has no lower bound check (bmp.c:60), so all three can be
  reached from a file.

The kernels require `Fits(header)`: height in `0 .. MAX_HEIGHT`, width at
most `MAX_WIDTH`, and width non-negative whenever there is a row. That is the
state a successful `ReadImage` leaves, which its contract states. Under it,
every index a kernel touches lies inside the fixed planes
(`Neighbourhood.VisitedInPlane`).

bmp.c does not check plane count, compression or bit depth. It has no
24-bit path, no row padding and no row flip, and it reports only
`FILE_ERROR` or `VALID_ERROR`. It checks only the magic tag, and reads and
writes `height` rows of `width` 4-byte pixels back to back from `offset`, in
file order. The model does exactly that.

## Model

| member | source | states |
|---|---|---|
| BmpFormat.Error.Code | bmp.h:7-10 | each error kind has its printError code, between 1 and 4 |
| BmpFormat.ErrorCodesDistinct | bmp.h:7-10 | two error kinds have the same code exactly when they are the same kind, so the four codes are distinct |
| BmpFormat.EncodeU16 | bmp.h:14-29 | a 16-bit field takes 2 bytes |
| BmpFormat.EncodeU32 | bmp.h:14-29 | an unsigned 32-bit field takes 4 bytes |
| BmpFormat.EncodeI32 | bmp.h:20-27 | a signed 32-bit field (width, height, resolutions) takes 4 bytes, in two's complement |
| BmpFormat.DecodeU16 | bmp.h:14-29 | a 16-bit field is read little-endian: the first byte is the low base-256 digit, the second the high one |
| BmpFormat.DecodeU32 | bmp.h:14-29 | an unsigned 32-bit field is read little-endian: byte k is base-256 digit k |
| BmpFormat.DecodeI32 | bmp.h:20-27 | a signed field is negative exactly when the top bit of its last byte is set, and is then the unsigned reading less 2^32 |
| BmpFormat.U16RoundTrip | bmp.h:14-29 | decoding the 2 bytes of a 16-bit value gives the value back |
| BmpFormat.U16BytesRoundTrip | bmp.h:14-29 | any 2 bytes re-encode to themselves after decoding |
| BmpFormat.U32RoundTrip | bmp.h:14-29 | decoding the 4 bytes of an unsigned 32-bit value gives it back |
| BmpFormat.U32BytesRoundTrip | bmp.h:14-29 | any 4 bytes re-encode to themselves after decoding as unsigned |
| BmpFormat.I32RoundTrip | bmp.h:20-27 | decoding the 4 bytes of a signed 32-bit value gives it back, negative values included |
| BmpFormat.I32BytesRoundTrip | bmp.h:20-27 | any 4 bytes re-encode to themselves after decoding as signed |
| BmpFormat.EncodeFileHeader | bmp.h:14-18 | the file-header part (type, size, reserved1, reserved2, offset) is 2+4+2+2+4 = 14 bytes |
| BmpFormat.EncodeInfoHeader | bmp.h:19-29 | the info-header part (header_size .. importantcolours) is 40 bytes |
| BmpFormat.EncodeHeader | bmp.h:12-31 | the packed header is exactly 54 bytes |
| BmpFormat.HeaderFieldOffsets | bmp.h:14-29 | each field sits at its fixed offset: type 0, size 2, reserved 6 and 8, offset 10, header_size 14, width 18, height 22, planes 26, bits 28, compression 30, imagesize 34, resolutions 38 and 42, colour counts 46 and 50 |
| BmpFormat.DecodeHeader | bmp.c:48 | the struct fread fills: the tag is 0x4D42 exactly when the first two bytes are 'B' (0x42) then 'M' (0x4D), and width and height are negative exactly when the top bit of their last byte is set |
| BmpFormat.HeaderRoundTrip | bmp.h:12-31 | decoding the 54 bytes of any header gives that header back |
| BmpFormat.HeaderBytesRoundTrip | bmp.h:12-31 | any 54 bytes, decoded into the record and encoded again, are reproduced exactly |
| BmpFormat.EncodePixel | bmp.h:33-38 | a pixel takes 4 bytes |
| BmpFormat.PixelRoundTrip | bmp.h:33-38 | decoding the 4 bytes of a pixel gives it back, in blue, green, red, alpha order |
| BmpFormat.DecodePixel | bmp.h:33-38 | bytes 0 .. 3 are blue, green, red and alpha, and re-encoding the pixel reproduces the 4 bytes |
| BmpFormat.EncodePixels | bmp.c:93 | a row of n pixels is 4n bytes |
| BmpFormat.EncodePixelsAt | bmp.c:93 | pixel k of a written row occupies bytes 4k .. 4k+4 of it |
| SharedMemory.Plane.Index | common.h:23-25 | the three planes are numbered 0, 1, 2 in declaration order |
| SharedMemory.CellOffset | common.h:20-26 | cell [y][x] of a plane lies after the header, inside the region of SHM_SIZE bytes, and inside its own plane's slice of it |
| SharedMemory.CellOffsetRowMajor | common.h:23-25 | planes are row-major: the next column is 4 bytes on, the next row 4 * MAX_WIDTH bytes on |
| SharedMemory.CellsDisjoint | common.h:21-26 | distinct cells, in one plane or in two, occupy disjoint bytes, so the three planes are disjoint storage |
| SharedMemory.SharedData.PlaneArray | common.h:23-25 | in a valid region each plane is a full MAX_HEIGHT x MAX_WIDTH array, and each plane array is a different array from the other two |
| SharedMemory.SharedData.constructor | common.h:20-26 | a new region has three distinct planes of MAX_HEIGHT x MAX_WIDTH and holds zero bytes |
| Streams.Window | bmp.c:39 | a read of n bytes delivers what is left of the file, at most n bytes, from the position on |
| Streams.Room | bmp.c:93 | a write gets at most the bytes it asks for onto the device, and all of them when they fit |
| Streams.Stream.Open | bmp.c:47 | the stream readImage receives: at position 0, holding the file's bytes |
| Streams.Stream.Truncate | bmp.c:74 | fopen with "wb" leaves an empty file at position 0 |
| Streams.Stream.Read | bmp.c:48 | fread returns the window at the position and advances the position by its length |
| Streams.Stream.Seek | bmp.c:65 | fseek succeeds exactly on a seekable stream and then sets the position |
| Streams.Stream.Write | bmp.c:80 | fwrite puts the bytes that fit at the position, extends the file to cover them, advances the position, and changes no other byte |
| BmpCodec.CheckBMPValid | bmp.c:108-110 | a header passes exactly when its tag field, stored at offset 0, is the bytes 'B' then 'M' |
| BmpCodec.CheckBMPValidMagicOnly | bmp.c:108-110 | the verdict of checkBMPValid depends on the magic tag alone |
| BmpCodec.Normalize | bmp.c:58 | the height becomes its absolute value, which is non-negative, and no other field changes |
| BmpCodec.NormalizeIdempotent | bmp.c:58 | normalising twice is normalising once, and a non-negative height is kept |
| BmpCodec.RowsEnd | bmp.c:38-39 | the file position after y rows of a non-negative width is never before the first row |
| BmpCodec.RowsEndClosed | bmp.c:38-43 | row y of the file starts at offset + 4 * (width * y) |
| BmpCodec.RowsEndMono | bmp.c:38-43 | for a non-negative width, later rows start later |
| BmpCodec.CellInRow | bmp.c:39 | pixel x of row y lies inside row y's bytes |
| BmpCodec.CellAgainstRows | bmp.c:38-43 | a pixel of row y is inside the first y' rows when y < y', and after them otherwise |
| BmpCodec.Row | bmp.c:93 | the row fwrite emits is the first width pixels of pixels[y] |
| BmpCodec.Snapshot | bmp.c:92-98 | the rows writeImage emits, row y being pixels[y][0 .. width) |
| BmpCodec.PixelsRead | bmp.c:39 | of a short fread, pixel x is complete exactly when the file holds all its 4 bytes |
| BmpCodec.FreadRow | bmp.c:39 | fread of count pixels stores the complete pixels at pixels[y][0 ..], reports how many, advances the stream, and leaves every other cell alone |
| BmpCodec.RowFacts | bmp.c:39-42 | a full row means the file holds it, and a short row means no later row is present |
| BmpCodec.ReadRow | bmp.c:39-42 | one iteration of readImageData: the cells of row y that the file holds get their file pixel, and n == width exactly when the whole row is present |
| BmpCodec.ReadImageData | bmp.c:37-45 | with the width at least 0, it succeeds exactly when the file holds all rows from the position on. Every cell present in the file is loaded and every other cell is kept. A negative width with rows to read is undefined |
| BmpCodec.ReadImage | bmp.c:47-71 | the outcome of every branch, in the code's order: a short header read, a wrong magic (header already overwritten), INT32_MIN height, bounds, seek failure, negative width, then the row data. On success the header is the normalised file header and fits the planes. Only the header and pixels change |
| BmpCodec.ProductFits | bmp.c:70 | within the capacity and for a non-negative width, width * height cannot overflow an int |
| BmpCodec.WriteRowStep | bmp.c:93 | writing row y at the end of rows 0 .. y-1 keeps everything written so far and adds row y's pixels |
| BmpCodec.WriteRow | bmp.c:93-97 | one iteration of writeImage's loop succeeds exactly when the row fits on the device, and then the file holds rows 0 .. y |
| BmpCodec.WriteRows | bmp.c:92-98 | the row loop succeeds exactly when all rows fit on the device, and then the file holds every row at offset + 4 * (width * y) |
| BmpCodec.WriteImage | bmp.c:73-102 | succeeds exactly when the file opens, the header fits, the stream seeks and all rows fit. Then the file holds the header bytes at 0 and rows 0 .. h-1 of pixels from offset on |
| BmpCodec.WrittenHeader | bmp.c:80 | once the data offset is at least 54, the first 54 bytes of a written file are the header |
| BmpCodec.ReadBack | bmp.c:47-71 | readImage of a file that writeImage produced succeeds, and yields the written header and rows |
| BmpCodec.WriteThenRead | bmp.c:47-102 | writeImage, then readImage of the file it wrote into a new region: the write succeeds exactly when the header and all rows fit on a seekable device, and when it succeeds the read succeeds with the same header and the same pixels over [0, h) x [0, w) |
| BmpCodec.ReadAfterWrite | bmp.c:38-43 | reading back the file writeImage produced, for a valid magic and offset >= 54: the header decodes to the same header and needs no normalisation, the file holds every row, and every pixel decodes to the one written |
| Neighbourhood.VisitedInPlane | desenfocador.c:31-38 | every index y+dy, x+dx either filter touches lies inside the fixed planes |
| Neighbourhood.RowOfThree | desenfocador.c:35-39 | three channel values of a window row sum to 0 .. 765 |
| Neighbourhood.Box | desenfocador.c:33-40 | the sum the dy/dx loops of apply_blur accumulate, centre included, lies in 0 .. 9 * 255, so it cannot overflow |
| Neighbourhood.Ring | realzador.c:34-43 | the sum the dy/dx loops of apply_edge_enhance accumulate, with the centre skipped, lies in 0 .. 8 * 255 |
| Neighbourhood.RowComplete | realzador.c:36-42 | the dx loop for row dy adds the three values of row y+dy, less the centre when it is skipped |
| Neighbourhood.WindowRows | desenfocador.c:34-40 | the dy/dx loops' sum is the three row sums (blur); with the centre skipped it is that less the centre (enhance) |
| Neighbourhood.BoxBetween | desenfocador.c:34-40 | nine values in [lo, hi] give a box sum in [9 lo, 9 hi] |
| Neighbourhood.RingBetween | realzador.c:35-43 | eight neighbour values in [lo, hi] give a ring sum in [8 lo, 8 hi] |
| Neighbourhood.WindowSums | desenfocador.c:33-40 | the dy/dx loops leave sum_red, sum_green and sum_blue equal to the window sums, centre included or, as in realzador.c:37, excluded |
| Neighbourhood.AddRow | realzador.c:36-42 | the dx loop adds row dy of the window to the three sums |
| Blur.BlurChannel | desenfocador.c:41-43 | the blurred channel v satisfies 9v <= box sum < 9v + 9, so it is the floor of the mean |
| Blur.BlurPixel | desenfocador.c:41-44 | the stored pixel has the centre's alpha, and each colour channel is the blurred channel |
| Blur.BlurCell | desenfocador.c:33-44 | the x-loop body computes exactly the blurred pixel |
| Blur.BlurRow | desenfocador.c:32-45 | cells 1 <= x < w-1 of row y of the blurred plane get the blurred pixel, and no other cell changes |
| Blur.ApplyBlur | desenfocador.c:30-47 | cells 1 <= y < h-1, 1 <= x < w-1 of pixelsOutDes become the blurred pixel and all others keep their value, so nothing changes when h < 3 or w < 3. pixels, pixelsOutReal and the header are not modified |
| Blur.BlurBetween | desenfocador.c:41-43 | each output channel lies between the least and the greatest of its nine source values, so it fits in a byte |
| Blur.BlurFlat | desenfocador.c:34-43 | a flat 3 x 3 region keeps its value |
| EdgeEnhance.Clamp | realzador.c:53-55 | values in 0 .. 255 are kept, values below become 0 and values above become 255 |
| EdgeEnhance.NeighbourMean | realzador.c:44-46 | the mean m lies in 0 .. 255 and satisfies 8m <= ring sum < 8m + 8, so it is the floor of the ring sum / 8 |
| EdgeEnhance.EnhanceChannel | realzador.c:44-55 | the enhanced channel moves away from the neighbour mean. A centre at or above the mean does not go down, and one at or below it does not go up. Within 0 .. 255, the distance to the mean doubles |
| EdgeEnhance.EnhancePixel | realzador.c:48-56 | the stored pixel has the centre's alpha, and each colour channel is the enhanced channel |
| EdgeEnhance.EnhanceCell | realzador.c:33-56 | the x-loop body (sums with the centre skipped, means, 2 * centre - mean, clamps) computes exactly the enhanced pixel |
| EdgeEnhance.EnhanceRow | realzador.c:32-57 | cells 1 <= x < w-1 of row y of the enhanced plane get the enhanced pixel, and no other cell changes |
| EdgeEnhance.ApplyEdgeEnhance | realzador.c:30-59 | cells 1 <= y < h-1, 1 <= x < w-1 of pixelsOutReal become the enhanced pixel and all others keep their value. pixels, pixelsOutDes and the header are not modified |
| EdgeEnhance.EnhanceFlat | realzador.c:44-55 | a flat region keeps its value: 2c - c = c |
| EdgeEnhance.EnhanceAntitoneInNeighbours | realzador.c:44-55 | raising the neighbour sum, the centre fixed, never raises the output channel |
| Combiner.CombinePixel | combinador.c:34-37 | each colour channel is the floor of the mean of the two inputs, and the alpha comes from the blurred plane |
| Combiner.CombineImages | combinador.c:30-40 | every cell y < h, x < w of pixels becomes the combination of the same cell of the two output planes, and cells outside keep their value. The output planes and the header are not modified, so the loop order does not matter |
| Combiner.CombineBetween | combinador.c:34-36 | each result channel lies between the two input values |
| Combiner.CombineAgreeing | combinador.c:34-37 | where the two planes agree, the result is that value |
| Combiner.CombineSymmetric | combinador.c:34-36 | the colour channels do not depend on which output plane is which |
| Combiner.PipelineFlat | combinador.c:34-37 | blur, enhancement and combination together keep a flat 3 x 3 region's value |

## Left out

- publicador.c, which is not part of this model. It prompts on the console,
  opens the files, creates and maps the shared region, and handles the named
  semaphores with a real-time timeout. This is I/O and inter-process
  concurrency. The three stages are modelled as methods run one after
  another on a given `SharedData`.
- The `main` functions and the `map_shared_memory` copies of
  desenfocador.c, realzador.c and combinador.c, which are mmap and
  semaphore handshakes.
- printError, printBMPHeader, printBMPImage and freeImage, which are console
  output or do nothing. The code printError would print is the `Error`
  carried by `Failure`.
- createBMPImage and the duplicateBMPImageHeader declaration, which use a
  type that is never declared.
- Host byte order: the packed header is read and written by a raw copy of
  the struct. The model fixes little-endian encoding, which is what the raw
  copy is on a little-endian host.
- fclose and stdio buffering. A write counts as done when `fwrite` reports
  it.
- The bytes between the header and `offset` after a seek past the end of
  the file, which file systems fill differently. The model leaves them
  unspecified.
- The dataSize parameter of readImageData, which the code never uses. It is
  passed and ignored.
- Streams.Stream.Seek: fails only on a stream that cannot seek. It does not
  model other causes of fseek failure.
- BmpCodec.ReadImage: after a short header read, the model leaves the
  header unspecified. In C the partly read element is indeterminate.
- BmpCodec.ReadImageData: when the file ends inside a pixel, that one cell
  is modelled as unchanged. C leaves its contents unspecified.
- BmpCodec.WriteImage: after a failed write, the contract states only the
  outcome, not the partial file left on disk.
- SharedMemory.SharedData.constructor: the zero fill of a freshly truncated
  region is the publisher's ftruncate, which is not part of this model.
