/** The shared region of common.h: one BMP header followed by three fixed
    MAX_HEIGHT x MAX_WIDTH pixel planes (original, blurred, enhanced). The
    region holds no pointers, so each plane is a fixed two-dimensional array
    of pixels, indexed [row, column]. */
module SharedMemory {
  import opened BmpFormat

  const MAX_WIDTH: nat := 1920
  const MAX_HEIGHT: nat := 1080

  /** Bytes of one packed plane. */
  const PLANE_SIZE: nat := MAX_HEIGHT * MAX_WIDTH * PIXEL_SIZE

  /** SHM_SIZE == sizeof(SharedData): the header and Pixel are packed structs
      of alignment 1, so there is no padding between or after the members. */
  const SHM_SIZE: nat := HEADER_SIZE + 3 * PLANE_SIZE

  /** The three planes, in declaration order. */
  datatype Plane = Original | Blurred | Enhanced {
    function Index(): (i: nat)
      ensures i < 3
    {
      match this
      case Original => 0
      case Blurred => 1
      case Enhanced => 2
    }
  }

  /** Byte offset, inside the region, of pixel [y][x] of plane k. */
  function CellOffset(k: Plane, y: int, x: int): (r: nat)
    requires 0 <= y < MAX_HEIGHT && 0 <= x < MAX_WIDTH
    ensures HEADER_SIZE <= r && r + PIXEL_SIZE <= SHM_SIZE
    ensures HEADER_SIZE + k.Index() * PLANE_SIZE <= r
    ensures r + PIXEL_SIZE <= HEADER_SIZE + (k.Index() + 1) * PLANE_SIZE
  {
    HEADER_SIZE + k.Index() * PLANE_SIZE + (y * MAX_WIDTH + x) * PIXEL_SIZE
  }

  /** Row-major: the next column is the next pixel, the next row is MAX_WIDTH pixels on. */
  lemma CellOffsetRowMajor(k: Plane, y: int, x: int)
    requires 0 <= y < MAX_HEIGHT && 0 <= x < MAX_WIDTH
    ensures x + 1 < MAX_WIDTH ==> CellOffset(k, y, x + 1) == CellOffset(k, y, x) + PIXEL_SIZE
    ensures y + 1 < MAX_HEIGHT ==> CellOffset(k, y + 1, x) == CellOffset(k, y, x) + MAX_WIDTH * PIXEL_SIZE
  {
  }

  /** Distinct cells, in the same plane or not, occupy disjoint bytes: the
      three planes are disjoint storage and none overlaps the header. */
  lemma CellsDisjoint(k: Plane, y: int, x: int, k': Plane, y': int, x': int)
    requires 0 <= y < MAX_HEIGHT && 0 <= x < MAX_WIDTH
    requires 0 <= y' < MAX_HEIGHT && 0 <= x' < MAX_WIDTH
    requires (k, y, x) != (k', y', x')
    ensures CellOffset(k, y, x) + PIXEL_SIZE <= CellOffset(k', y', x')
         || CellOffset(k', y', x') + PIXEL_SIZE <= CellOffset(k, y, x)
  {
    var c := y * MAX_WIDTH + x;
    var c' := y' * MAX_WIDTH + x';
    if k == k' {
      if y < y' {
        assert c + 1 <= c';
      } else if y' < y {
        assert c' + 1 <= c;
      }
    } else if k.Index() < k'.Index() {
      assert CellOffset(k, y, x) + PIXEL_SIZE <= HEADER_SIZE + k'.Index() * PLANE_SIZE;
    } else {
      assert CellOffset(k', y', x') + PIXEL_SIZE <= HEADER_SIZE + k.Index() * PLANE_SIZE;
    }
  }

  /** The header state a successful readImage leaves behind: normalised
      height within MAX_HEIGHT, width at most MAX_WIDTH, and a non-negative
      width whenever there is a row to process. */
  predicate Fits(h: Header)
  {
    && 0 <= h.heightPx <= MAX_HEIGHT
    && h.widthPx <= MAX_WIDTH
    && (h.heightPx == 0 || 0 <= h.widthPx)
  }

  /** SharedData: the header and the three planes. */
  class SharedData {
    var header: Header
    const pixels: array2<Pixel>
    const pixelsOutDes: array2<Pixel>
    const pixelsOutReal: array2<Pixel>

    /** Every plane has the fixed capacity and the planes are distinct storage. */
    ghost predicate Valid()
      reads this
    {
      && pixels.Length0 == MAX_HEIGHT && pixels.Length1 == MAX_WIDTH
      && pixelsOutDes.Length0 == MAX_HEIGHT && pixelsOutDes.Length1 == MAX_WIDTH
      && pixelsOutReal.Length0 == MAX_HEIGHT && pixelsOutReal.Length1 == MAX_WIDTH
      && pixels != pixelsOutDes && pixels != pixelsOutReal && pixelsOutDes != pixelsOutReal
    }

    /** The storage of plane k: a full-capacity plane, and a different array
        from each of the other two planes. */
    function PlaneArray(k: Plane): (a: array2<Pixel>)
      reads this
      requires Valid()
      ensures a.Length0 == MAX_HEIGHT && a.Length1 == MAX_WIDTH
      ensures (a == pixels <==> k == Original) && (a == pixelsOutDes <==> k == Blurred)
      ensures a == pixelsOutReal <==> k == Enhanced
    {
      match k
      case Original => pixels
      case Blurred => pixelsOutDes
      case Enhanced => pixelsOutReal
    }

    /** A freshly mapped region: ftruncate fills the new region with zero bytes. */
    constructor ()
      ensures Valid()
      ensures fresh(pixels) && fresh(pixelsOutDes) && fresh(pixelsOutReal)
      ensures header == DecodeHeader(seq(HEADER_SIZE, _ => 0))
      ensures forall y, x | 0 <= y < MAX_HEIGHT && 0 <= x < MAX_WIDTH ::
        && pixels[y, x] == Pixel(0, 0, 0, 0)
        && pixelsOutDes[y, x] == Pixel(0, 0, 0, 0)
        && pixelsOutReal[y, x] == Pixel(0, 0, 0, 0)
    {
      header := DecodeHeader(seq(HEADER_SIZE, _ => 0));
      pixels := new Pixel[MAX_HEIGHT, MAX_WIDTH]((_, _) => Pixel(0, 0, 0, 0));
      pixelsOutDes := new Pixel[MAX_HEIGHT, MAX_WIDTH]((_, _) => Pixel(0, 0, 0, 0));
      pixelsOutReal := new Pixel[MAX_HEIGHT, MAX_WIDTH]((_, _) => Pixel(0, 0, 0, 0));
    }
  }
}
