/** The 3 x 3 window both filters sum over: the cell (y, x) and its eight
    neighbours, visited by the loops `for dy in -1..1, for dx in -1..1` in
    row-major order; the centre is offset (0, 0). */
module Neighbourhood {
  import opened BmpFormat
  import opened SharedMemory

  /** (y, x) has all eight neighbours inside the plane. */
  predicate Interior(p: array2<Pixel>, y: int, x: int)
  {
    1 <= y < p.Length0 - 1 && 1 <= x < p.Length1 - 1
  }

  /** The cells apply_blur and apply_edge_enhance visit: 1 <= y < h-1 and 1 <= x < w-1. */
  predicate Visited(h: int, w: int, y: int, x: int)
  {
    1 <= y < h - 1 && 1 <= x < w - 1
  }

  /** Every index y+dy, x+dx either filter touches lies inside the fixed planes
      once the header fits them. */
  lemma VisitedInPlane(hd: Header, y: int, x: int, dy: int, dx: int)
    requires Fits(hd) && Visited(hd.heightPx, hd.widthPx, y, x)
    requires -1 <= dy <= 1 && -1 <= dx <= 1
    ensures 0 <= y + dy < MAX_HEIGHT && 0 <= x + dx < MAX_WIDTH
  {
  }

  /** What the visit of offset (dy, dx) adds to the sum of channel c: the
      neighbour's value, or nothing for the centre when it is skipped. */
  function Term(p: array2<Pixel>, c: Channel, y: int, x: int, dy: int, dx: int, withCentre: bool): (t: int)
    reads p
    requires Interior(p, y, x) && -1 <= dy <= 1 && -1 <= dx <= 1
  {
    if dy == 0 && dx == 0 && !withCentre then 0 else Get(p[y + dy, x + dx], c) as int
  }

  /** The visits dx = -1 .. n-1 of row dy of the window. */
  function RowPrefix(p: array2<Pixel>, c: Channel, y: int, x: int, dy: int, n: int, withCentre: bool): (s: int)
    reads p
    requires Interior(p, y, x) && -1 <= dy <= 1 && -1 <= n <= 2
    decreases n + 1
  {
    if n == -1 then 0
    else RowPrefix(p, c, y, x, dy, n - 1, withCentre) + Term(p, c, y, x, dy, n - 1, withCentre)
  }

  /** The complete rows dy = -1 .. m-1 of the window: the accumulator of the
      loops when the outer loop reaches dy = m. */
  function Prefix(p: array2<Pixel>, c: Channel, y: int, x: int, m: int, withCentre: bool): (s: int)
    reads p
    requires Interior(p, y, x) && -1 <= m <= 2
    decreases m + 1
  {
    if m == -1 then 0
    else Prefix(p, c, y, x, m - 1, withCentre) + RowPrefix(p, c, y, x, m - 1, 2, withCentre)
  }

  /** Channel c summed along row j over columns x-1, x, x+1. */
  function RowOfThree(p: array2<Pixel>, c: Channel, j: int, x: int): (s: int)
    reads p
    requires 0 <= j < p.Length0 && 1 <= x < p.Length1 - 1
    ensures 0 <= s <= 3 * 255
  {
    Get(p[j, x - 1], c) as int + Get(p[j, x], c) as int + Get(p[j, x + 1], c) as int
  }

  /** The 3 x 3 box sum of channel c around (y, x), centre included, as
      apply_blur accumulates it; nine bytes, so it cannot overflow an int. */
  function Box(p: array2<Pixel>, c: Channel, y: int, x: int): (s: int)
    reads p
    requires Interior(p, y, x)
    ensures 0 <= s <= 9 * 255
  {
    WindowRows(p, c, y, x);
    Prefix(p, c, y, x, 2, true)
  }

  /** The sum of channel c over the eight neighbours of (y, x), as
      apply_edge_enhance accumulates it. */
  function Ring(p: array2<Pixel>, c: Channel, y: int, x: int): (s: int)
    reads p
    requires Interior(p, y, x)
    ensures 0 <= s <= 8 * 255
  {
    WindowRows(p, c, y, x);
    Prefix(p, c, y, x, 2, false)
  }

  /** A full row of the window is the row sum, less the centre when it is skipped. */
  lemma RowComplete(p: array2<Pixel>, c: Channel, y: int, x: int, dy: int, withCentre: bool)
    requires Interior(p, y, x) && -1 <= dy <= 1
    ensures RowPrefix(p, c, y, x, dy, 2, withCentre)
         == RowOfThree(p, c, y + dy, x) - (if dy == 0 && !withCentre then Get(p[y, x], c) as int else 0)
  {
    assert RowPrefix(p, c, y, x, dy, 0, withCentre) == Term(p, c, y, x, dy, -1, withCentre);
    assert RowPrefix(p, c, y, x, dy, 1, withCentre)
        == RowPrefix(p, c, y, x, dy, 0, withCentre) + Term(p, c, y, x, dy, 0, withCentre);
  }

  /** The loops' sums in closed form: the box is the three row sums, the
      ring is the box without the centre. */
  lemma WindowRows(p: array2<Pixel>, c: Channel, y: int, x: int)
    requires Interior(p, y, x)
    ensures Prefix(p, c, y, x, 2, true) == RowOfThree(p, c, y - 1, x) + RowOfThree(p, c, y, x) + RowOfThree(p, c, y + 1, x)
    ensures Prefix(p, c, y, x, 2, false) == Prefix(p, c, y, x, 2, true) - Get(p[y, x], c) as int
  {
    for dy := -1 to 2
      invariant forall m | -1 <= m < dy :: RowPrefix(p, c, y, x, m, 2, true) == RowOfThree(p, c, y + m, x)
      invariant forall m | -1 <= m < dy ::
        RowPrefix(p, c, y, x, m, 2, false) == RowOfThree(p, c, y + m, x) - (if m == 0 then Get(p[y, x], c) as int else 0)
    {
      RowComplete(p, c, y, x, dy, true);
      RowComplete(p, c, y, x, dy, false);
    }
    assert Prefix(p, c, y, x, 0, true) == RowOfThree(p, c, y - 1, x);
    assert Prefix(p, c, y, x, 0, false) == RowOfThree(p, c, y - 1, x);
    assert Prefix(p, c, y, x, 1, true) == Prefix(p, c, y, x, 0, true) + RowOfThree(p, c, y, x);
    assert Prefix(p, c, y, x, 1, false) == Prefix(p, c, y, x, 0, false) + RowOfThree(p, c, y, x) - Get(p[y, x], c) as int;
    assert Prefix(p, c, y, x, 2, true) == Prefix(p, c, y, x, 1, true) + RowOfThree(p, c, y + 1, x);
    assert Prefix(p, c, y, x, 2, false) == Prefix(p, c, y, x, 1, false) + RowOfThree(p, c, y + 1, x);
  }

  /** Nine values within [lo, hi] sum to within [9 lo, 9 hi]. */
  lemma BoxBetween(p: array2<Pixel>, c: Channel, y: int, x: int, lo: int, hi: int)
    requires Interior(p, y, x)
    requires forall j, i | y - 1 <= j <= y + 1 && x - 1 <= i <= x + 1 :: lo <= Get(p[j, i], c) as int <= hi
    ensures 9 * lo <= Box(p, c, y, x) <= 9 * hi
  {
    WindowRows(p, c, y, x);
    forall j | y - 1 <= j <= y + 1
      ensures 3 * lo <= RowOfThree(p, c, j, x) <= 3 * hi
    {
      assert lo <= Get(p[j, x - 1], c) as int <= hi;
      assert lo <= Get(p[j, x], c) as int <= hi;
      assert lo <= Get(p[j, x + 1], c) as int <= hi;
    }
  }

  /** The eight neighbours within [lo, hi] sum to within [8 lo, 8 hi]. */
  lemma RingBetween(p: array2<Pixel>, c: Channel, y: int, x: int, lo: int, hi: int)
    requires Interior(p, y, x)
    requires forall j, i | y - 1 <= j <= y + 1 && x - 1 <= i <= x + 1 && (j, i) != (y, x) ::
      lo <= Get(p[j, i], c) as int <= hi
    ensures 8 * lo <= Ring(p, c, y, x) <= 8 * hi
  {
    WindowRows(p, c, y, x);
    assert lo <= Get(p[y, x - 1], c) as int <= hi;
    assert lo <= Get(p[y, x + 1], c) as int <= hi;
    forall j | j == y - 1 || j == y + 1
      ensures 3 * lo <= RowOfThree(p, c, j, x) <= 3 * hi
    {
      assert lo <= Get(p[j, x - 1], c) as int <= hi;
      assert lo <= Get(p[j, x], c) as int <= hi;
      assert lo <= Get(p[j, x + 1], c) as int <= hi;
    }
  }

  /** The dy/dx loops of apply_blur (withCentre) and apply_edge_enhance
      (centre skipped): sum_red, sum_green and sum_blue over the window. */
  method WindowSums(p: array2<Pixel>, y: int, x: int, withCentre: bool) returns (sumRed: int, sumGreen: int, sumBlue: int)
    requires Interior(p, y, x)
    ensures sumRed == (if withCentre then Box(p, Red, y, x) else Ring(p, Red, y, x))
    ensures sumGreen == (if withCentre then Box(p, Green, y, x) else Ring(p, Green, y, x))
    ensures sumBlue == (if withCentre then Box(p, Blue, y, x) else Ring(p, Blue, y, x))
  {
    sumRed, sumGreen, sumBlue := 0, 0, 0;
    var dy := -1;
    while dy <= 1
      invariant -1 <= dy <= 2
      invariant sumRed == Prefix(p, Red, y, x, dy, withCentre)
      invariant sumGreen == Prefix(p, Green, y, x, dy, withCentre)
      invariant sumBlue == Prefix(p, Blue, y, x, dy, withCentre)
    {
      sumRed, sumGreen, sumBlue := AddRow(p, y, x, dy, withCentre, sumRed, sumGreen, sumBlue);
      dy := dy + 1;
    }
  }

  /** The dx loop for one dy: adds row dy of the window to the three sums. */
  method AddRow(p: array2<Pixel>, y: int, x: int, dy: int, withCentre: bool, red: int, green: int, blue: int)
    returns (sumRed: int, sumGreen: int, sumBlue: int)
    requires Interior(p, y, x) && -1 <= dy <= 1
    ensures sumRed == red + RowPrefix(p, Red, y, x, dy, 2, withCentre)
    ensures sumGreen == green + RowPrefix(p, Green, y, x, dy, 2, withCentre)
    ensures sumBlue == blue + RowPrefix(p, Blue, y, x, dy, 2, withCentre)
  {
    sumRed, sumGreen, sumBlue := red, green, blue;
    var dx := -1;
    while dx <= 1
      invariant -1 <= dx <= 2
      invariant sumRed == red + RowPrefix(p, Red, y, x, dy, dx, withCentre)
      invariant sumGreen == green + RowPrefix(p, Green, y, x, dy, dx, withCentre)
      invariant sumBlue == blue + RowPrefix(p, Blue, y, x, dy, dx, withCentre)
    {
      if withCentre || !(dy == 0 && dx == 0) {
        sumRed := sumRed + p[y + dy, x + dx].red as int;
        sumGreen := sumGreen + p[y + dy, x + dx].green as int;
        sumBlue := sumBlue + p[y + dy, x + dx].blue as int;
      }
      dx := dx + 1;
    }
  }
}
