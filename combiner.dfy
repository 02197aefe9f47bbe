/** combinador.c: combine_images overwrites the original plane, cell by
    cell over the whole image, with the per-channel mean of the blurred and
    the enhanced planes. */
module Combiner {
  import opened BmpFormat
  import opened SharedMemory
  import opened Neighbourhood
  import opened Blur
  import opened EdgeEnhance

  /** The pixel combine_images stores from cell values `des` (blurred) and
      `enh` (enhanced): each colour channel is their mean rounded down, the
      alpha is the blurred one. */
  function CombinePixel(des: Pixel, enh: Pixel): (q: Pixel)
    ensures q.alpha == des.alpha
    ensures forall c: Channel :: 2 * Get(q, c) as int <= Get(des, c) as int + Get(enh, c) as int <= 2 * Get(q, c) as int + 1
  {
    Pixel((des.blue as int + enh.blue as int) / 2,
          (des.green as int + enh.green as int) / 2,
          (des.red as int + enh.red as int) / 2,
          des.alpha)
  }

  /** combine_images: cells [0, h) x [0, w) of the original plane become the
      combination of the same cell of the two output planes; nothing else changes. */
  method CombineImages(shared: SharedData)
    requires shared.Valid() && Fits(shared.header)
    modifies shared.pixels
    ensures forall k: Plane | k != Original :: unchanged(shared.PlaneArray(k))
    ensures forall y, x | 0 <= y < MAX_HEIGHT && 0 <= x < MAX_WIDTH ::
      shared.pixels[y, x]
        == if y < shared.header.heightPx && x < shared.header.widthPx
           then CombinePixel(shared.pixelsOutDes[y, x], shared.pixelsOutReal[y, x])
           else old(shared.pixels[y, x])
  {
    var h, w := shared.header.heightPx, shared.header.widthPx;
    var y := 0;
    while y < h
      invariant 0 <= y <= h
      invariant forall yy, xx | 0 <= yy < MAX_HEIGHT && 0 <= xx < MAX_WIDTH ::
        shared.pixels[yy, xx]
          == if yy < y && xx < w then CombinePixel(shared.pixelsOutDes[yy, xx], shared.pixelsOutReal[yy, xx])
             else old(shared.pixels[yy, xx])
    {
      var x := 0;
      while x < w
        invariant 0 <= x <= w
        invariant forall yy, xx | 0 <= yy < MAX_HEIGHT && 0 <= xx < MAX_WIDTH ::
          shared.pixels[yy, xx]
            == if (yy < y && xx < w) || (yy == y && xx < x)
               then CombinePixel(shared.pixelsOutDes[yy, xx], shared.pixelsOutReal[yy, xx])
               else old(shared.pixels[yy, xx])
      {
        var des, enh := shared.pixelsOutDes[y, x], shared.pixelsOutReal[y, x];
        shared.pixels[y, x] := Pixel(
          (des.blue as int + enh.blue as int) / 2,
          (des.green as int + enh.green as int) / 2,
          (des.red as int + enh.red as int) / 2,
          des.alpha);
        x := x + 1;
      }
      y := y + 1;
    }
  }

  /** Each result channel lies between the two input values. */
  lemma CombineBetween(des: Pixel, enh: Pixel, c: Channel)
    ensures var a, b, r := Get(des, c), Get(enh, c), Get(CombinePixel(des, enh), c);
      (a <= b ==> a <= r <= b) && (b <= a ==> b <= r <= a)
  {
  }

  /** Where the two planes agree the result is that value. */
  lemma CombineAgreeing(des: Pixel, enh: Pixel)
    ensures forall c: Channel :: Get(des, c) == Get(enh, c) ==> Get(CombinePixel(des, enh), c) == Get(des, c)
    ensures des == enh ==> CombinePixel(des, enh) == des
  {
  }

  /** The colour channels do not depend on which plane is which; only alpha does. */
  lemma CombineSymmetric(des: Pixel, enh: Pixel, c: Channel)
    ensures Get(CombinePixel(des, enh), c) == Get(CombinePixel(enh, des), c)
  {
  }

  /** The three stages together leave a flat 3 x 3 region of the original
      plane as it is: blur and enhancement both keep its value, and so does
      their mean. */
  lemma PipelineFlat(p: array2<Pixel>, c: Channel, y: int, x: int, v: Byte)
    requires Interior(p, y, x)
    requires forall j, i | y - 1 <= j <= y + 1 && x - 1 <= i <= x + 1 :: Get(p[j, i], c) == v
    ensures Get(CombinePixel(BlurPixel(p, y, x), EnhancePixel(p, y, x)), c) == v
  {
    BlurFlat(p, c, y, x, v);
    EnhanceFlat(p, c, y, x, v);
  }
}
