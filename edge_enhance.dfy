/** realzador.c: apply_edge_enhance sharpens every cell with a full
    neighbourhood: twice the centre minus the mean of the eight neighbours,
    clamped to 0 .. 255, written into the enhanced plane. */
module EdgeEnhance {
  import opened BmpFormat
  import opened SharedMemory
  import opened Neighbourhood

  /** The two conditional expressions that limit a value to 0 .. 255. */
  function Clamp(v: int): (r: Byte)
    ensures 0 <= v <= 255 ==> r as int == v
    ensures v < 0 ==> r == 0
    ensures v > 255 ==> r == 255
  {
    if v > 255 then 255 else if v < 0 then 0 else v
  }

  /** The neighbour mean: the eight neighbours' sum divided by 8, rounded down. */
  function NeighbourMean(p: array2<Pixel>, c: Channel, y: int, x: int): (m: int)
    reads p
    requires Interior(p, y, x)
    ensures 0 <= m <= 255
    ensures 8 * m <= Ring(p, c, y, x) < 8 * m + 8
  {
    RingBetween(p, c, y, x, 0, 255);
    Ring(p, c, y, x) / 8
  }

  /** Channel c of the enhanced cell (y, x). Enhancement moves the channel
      away from its neighbour mean: a centre at or above the mean does not go
      down, one at or below it does not go up, and within 0 .. 255 the
      distance to the mean doubles. */
  function EnhanceChannel(p: array2<Pixel>, c: Channel, y: int, x: int): (v: Byte)
    reads p
    requires Interior(p, y, x)
    ensures var centre, m := Get(p[y, x], c) as int, NeighbourMean(p, c, y, x);
      && (centre >= m ==> v as int >= centre)
      && (centre <= m ==> v as int <= centre)
      && (0 <= 2 * centre - m <= 255 ==> v as int - m == 2 * (centre - m))
  {
    Clamp(2 * Get(p[y, x], c) as int - NeighbourMean(p, c, y, x))
  }

  /** The pixel apply_edge_enhance stores at (y, x): the three clamped channels and the centre's alpha. */
  function EnhancePixel(p: array2<Pixel>, y: int, x: int): (q: Pixel)
    reads p
    requires Interior(p, y, x)
    ensures q.alpha == p[y, x].alpha
    ensures forall c: Channel :: Get(q, c) == EnhanceChannel(p, c, y, x)
  {
    Pixel(EnhanceChannel(p, Blue, y, x), EnhanceChannel(p, Green, y, x), EnhanceChannel(p, Red, y, x), p[y, x].alpha)
  }

  /** The body of the x loop: the neighbour sums with the centre skipped, the
      means, the enhanced values and their clamping. */
  method EnhanceCell(p: array2<Pixel>, y: int, x: int) returns (q: Pixel)
    requires Interior(p, y, x)
    ensures q == EnhancePixel(p, y, x)
  {
    var sumRed, sumGreen, sumBlue := WindowSums(p, y, x, false);
    var avgRed, avgGreen, avgBlue := sumRed / 8, sumGreen / 8, sumBlue / 8;
    var enhancedRed := 2 * p[y, x].red as int - avgRed;
    var enhancedGreen := 2 * p[y, x].green as int - avgGreen;
    var enhancedBlue := 2 * p[y, x].blue as int - avgBlue;
    q := Pixel(
      if enhancedBlue > 255 then 255 else if enhancedBlue < 0 then 0 else enhancedBlue,
      if enhancedGreen > 255 then 255 else if enhancedGreen < 0 then 0 else enhancedGreen,
      if enhancedRed > 255 then 255 else if enhancedRed < 0 then 0 else enhancedRed,
      p[y, x].alpha);
  }

  /** apply_edge_enhance: only the enhanced plane changes, and of it only the visited cells. */
  method ApplyEdgeEnhance(shared: SharedData)
    requires shared.Valid() && Fits(shared.header)
    modifies shared.pixelsOutReal
    ensures forall k: Plane | k != Enhanced :: unchanged(shared.PlaneArray(k))
    ensures forall y, x | 0 <= y < MAX_HEIGHT && 0 <= x < MAX_WIDTH && Visited(shared.header.heightPx, shared.header.widthPx, y, x) ::
      shared.pixelsOutReal[y, x] == EnhancePixel(shared.pixels, y, x)
    ensures forall y, x | 0 <= y < MAX_HEIGHT && 0 <= x < MAX_WIDTH && !Visited(shared.header.heightPx, shared.header.widthPx, y, x) ::
      shared.pixelsOutReal[y, x] == old(shared.pixelsOutReal[y, x])
  {
    var h, w := shared.header.heightPx, shared.header.widthPx;
    var y := 1;
    while y < h - 1
      invariant 1 <= y <= if h < 2 then 1 else h - 1
      invariant forall yy, xx | 0 <= yy < y && 0 <= xx < MAX_WIDTH && Visited(h, w, yy, xx) ::
        shared.pixelsOutReal[yy, xx] == EnhancePixel(shared.pixels, yy, xx)
      invariant forall yy, xx | 0 <= yy < MAX_HEIGHT && 0 <= xx < MAX_WIDTH && !(Visited(h, w, yy, xx) && yy < y) ::
        shared.pixelsOutReal[yy, xx] == old(shared.pixelsOutReal[yy, xx])
    {
      EnhanceRow(shared.pixels, shared.pixelsOutReal, y, w);
      y := y + 1;
    }
  }

  /** The x loop of apply_edge_enhance for row y. */
  method EnhanceRow(p: array2<Pixel>, out: array2<Pixel>, y: int, w: int)
    requires p != out && p.Length0 == out.Length0 && p.Length1 == out.Length1
    requires 1 <= y < p.Length0 - 1 && w <= p.Length1
    modifies out
    ensures forall xx | 1 <= xx < w - 1 :: out[y, xx] == old(EnhancePixel(p, y, xx))
    ensures forall yy, xx | 0 <= yy < out.Length0 && 0 <= xx < out.Length1 && !(yy == y && 1 <= xx < w - 1) ::
      out[yy, xx] == old(out[yy, xx])
  {
    var x := 1;
    while x < w - 1
      invariant 1 <= x <= if w < 2 then 1 else w - 1
      invariant forall xx | 1 <= xx < x :: out[y, xx] == old(EnhancePixel(p, y, xx))
      invariant forall yy, xx | 0 <= yy < out.Length0 && 0 <= xx < out.Length1 && !(yy == y && 1 <= xx < x) ::
        out[yy, xx] == old(out[yy, xx])
    {
      var q := EnhanceCell(p, y, x);
      out[y, x] := q;
      x := x + 1;
    }
  }

  /** A flat 3 x 3 region is left as it is: 2c - c = c. */
  lemma EnhanceFlat(p: array2<Pixel>, c: Channel, y: int, x: int, v: Byte)
    requires Interior(p, y, x)
    requires forall j, i | y - 1 <= j <= y + 1 && x - 1 <= i <= x + 1 :: Get(p[j, i], c) == v
    ensures Get(EnhancePixel(p, y, x), c) == v
  {
    RingBetween(p, c, y, x, v as int, v as int);
    assert Get(p[y, x], c) == v;
  }

  /** Raising the neighbours (the centre fixed) never raises the output. */
  lemma EnhanceAntitoneInNeighbours(p: array2<Pixel>, p': array2<Pixel>, c: Channel, y: int, x: int)
    requires Interior(p, y, x) && Interior(p', y, x)
    requires Get(p[y, x], c) == Get(p'[y, x], c)
    requires Ring(p, c, y, x) <= Ring(p', c, y, x)
    ensures Get(EnhancePixel(p', y, x), c) <= Get(EnhancePixel(p, y, x), c)
  {
    assert NeighbourMean(p, c, y, x) <= NeighbourMean(p', c, y, x);
  }
}
