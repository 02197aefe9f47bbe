/** desenfocador.c: apply_blur writes the 3 x 3 box mean of the original
    plane into the blurred plane, for every cell with a full neighbourhood
    inside the image. */
module Blur {
  import opened BmpFormat
  import opened SharedMemory
  import opened Neighbourhood

  /** Channel c of the blurred cell (y, x): the box sum divided by 9, rounded down. */
  function BlurChannel(p: array2<Pixel>, c: Channel, y: int, x: int): (v: Byte)
    reads p
    requires Interior(p, y, x)
    ensures 9 * v <= Box(p, c, y, x) < 9 * v + 9
  {
    BoxBetween(p, c, y, x, 0, 255);
    Box(p, c, y, x) / 9
  }

  /** The pixel apply_blur stores at (y, x): the three channel means and the centre's alpha. */
  function BlurPixel(p: array2<Pixel>, y: int, x: int): (q: Pixel)
    reads p
    requires Interior(p, y, x)
    ensures q.alpha == p[y, x].alpha
    ensures forall c: Channel :: Get(q, c) == BlurChannel(p, c, y, x)
  {
    Pixel(BlurChannel(p, Blue, y, x), BlurChannel(p, Green, y, x), BlurChannel(p, Red, y, x), p[y, x].alpha)
  }

  /** The body of the x loop: the dy/dx loops accumulate sum_red, sum_green
      and sum_blue over the window, then each is divided by 9. */
  method BlurCell(p: array2<Pixel>, y: int, x: int) returns (q: Pixel)
    requires Interior(p, y, x)
    ensures q == BlurPixel(p, y, x)
  {
    var sumRed, sumGreen, sumBlue := WindowSums(p, y, x, true);
    BoxBetween(p, Red, y, x, 0, 255);
    BoxBetween(p, Green, y, x, 0, 255);
    BoxBetween(p, Blue, y, x, 0, 255);
    q := Pixel(sumBlue / 9, sumGreen / 9, sumRed / 9, p[y, x].alpha);
  }

  /** apply_blur: only the blurred plane changes, and of it only the visited cells. */
  method ApplyBlur(shared: SharedData)
    requires shared.Valid() && Fits(shared.header)
    modifies shared.pixelsOutDes
    ensures forall k: Plane | k != Blurred :: unchanged(shared.PlaneArray(k))
    ensures forall y, x | 0 <= y < MAX_HEIGHT && 0 <= x < MAX_WIDTH && Visited(shared.header.heightPx, shared.header.widthPx, y, x) ::
      shared.pixelsOutDes[y, x] == BlurPixel(shared.pixels, y, x)
    ensures forall y, x | 0 <= y < MAX_HEIGHT && 0 <= x < MAX_WIDTH && !Visited(shared.header.heightPx, shared.header.widthPx, y, x) ::
      shared.pixelsOutDes[y, x] == old(shared.pixelsOutDes[y, x])
  {
    var h, w := shared.header.heightPx, shared.header.widthPx;
    var y := 1;
    while y < h - 1
      invariant 1 <= y <= if h < 2 then 1 else h - 1
      invariant forall yy, xx | 0 <= yy < y && 0 <= xx < MAX_WIDTH && Visited(h, w, yy, xx) ::
        shared.pixelsOutDes[yy, xx] == BlurPixel(shared.pixels, yy, xx)
      invariant forall yy, xx | 0 <= yy < MAX_HEIGHT && 0 <= xx < MAX_WIDTH && !(Visited(h, w, yy, xx) && yy < y) ::
        shared.pixelsOutDes[yy, xx] == old(shared.pixelsOutDes[yy, xx])
    {
      BlurRow(shared.pixels, shared.pixelsOutDes, y, w);
      y := y + 1;
    }
  }

  /** The x loop of apply_blur for row y: cells 1 <= x < w-1 of row y of `out`
      get the blurred pixel, every other cell is left alone. */
  method BlurRow(p: array2<Pixel>, out: array2<Pixel>, y: int, w: int)
    requires p != out && p.Length0 == out.Length0 && p.Length1 == out.Length1
    requires 1 <= y < p.Length0 - 1 && w <= p.Length1
    modifies out
    ensures forall xx | 1 <= xx < w - 1 :: out[y, xx] == old(BlurPixel(p, y, xx))
    ensures forall yy, xx | 0 <= yy < out.Length0 && 0 <= xx < out.Length1 && !(yy == y && 1 <= xx < w - 1) ::
      out[yy, xx] == old(out[yy, xx])
  {
    var x := 1;
    while x < w - 1
      invariant 1 <= x <= if w < 2 then 1 else w - 1
      invariant forall xx | 1 <= xx < x :: out[y, xx] == old(BlurPixel(p, y, xx))
      invariant forall yy, xx | 0 <= yy < out.Length0 && 0 <= xx < out.Length1 && !(yy == y && 1 <= xx < x) ::
        out[yy, xx] == old(out[yy, xx])
    {
      var q := BlurCell(p, y, x);
      out[y, x] := q;
      x := x + 1;
    }
  }

  /** Each output channel lies between the least and the greatest of its nine
      source values; in particular it fits in a byte. */
  lemma BlurBetween(p: array2<Pixel>, c: Channel, y: int, x: int, lo: int, hi: int)
    requires Interior(p, y, x)
    requires forall j, i | y - 1 <= j <= y + 1 && x - 1 <= i <= x + 1 :: lo <= Get(p[j, i], c) as int <= hi
    ensures lo <= Get(BlurPixel(p, y, x), c) as int <= hi
  {
    BoxBetween(p, c, y, x, lo, hi);
  }

  /** A flat 3 x 3 region is left as it is. */
  lemma BlurFlat(p: array2<Pixel>, c: Channel, y: int, x: int, v: Byte)
    requires Interior(p, y, x)
    requires forall j, i | y - 1 <= j <= y + 1 && x - 1 <= i <= x + 1 :: Get(p[j, i], c) == v
    ensures Get(BlurPixel(p, y, x), c) == v
  {
    BlurBetween(p, c, y, x, v as int, v as int);
  }
}
