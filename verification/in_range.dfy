/** `cv2.inRange` over a whole picture: 255 where the pixel lies in the window, 0 elsewhere. */
module InRange {
  import opened Bytes
  import opened Raster
  import opened Window

  /** The mask value of one pixel. */
  function PixelMask(p: YCrCb, b: Bounds): Byte
  {
    if InWindow(p, b) then 255 else 0
  }

  /** The mask of one row, built pixel by pixel. */
  function RowMask(row: seq<YCrCb>, b: Bounds): (r: seq<Byte>)
    ensures |r| == |row|
    ensures forall j :: 0 <= j < |row| ==> (r[j] == 255 <==> InWindow(row[j], b))
    ensures forall j :: 0 <= j < |row| ==> (r[j] == 0 <==> !InWindow(row[j], b))
  {
    if row == [] then [] else [PixelMask(row[0], b)] + RowMask(row[1..], b)
  }

  /** The raw match mask of a picture, built row by row. */
  function RawMask(img: Picture, b: Bounds): (r: Mask)
    ensures SameShape(r, img)
    ensures forall i, j :: 0 <= i < |img| && 0 <= j < |img[i]| ==>
              (r[i][j] == 255 <==> InWindow(img[i][j], b)) && (r[i][j] == 0 <==> !InWindow(img[i][j], b))
  {
    if img == [] then [] else [RowMask(img[0], b)] + RawMask(img[1..], b)
  }

  /** When the luma bounds are the full byte range, two pictures with the same chroma get the same mask. */
  lemma MaskIgnoresLuma(a: Picture, c: Picture, b: Bounds)
    requires LumaFree(b)
    requires SameChroma(a, c)
    ensures RawMask(a, b) == RawMask(c, b)
  {
    var ma, mc := RawMask(a, b), RawMask(c, b);
    forall i | 0 <= i < |a|
      ensures ma[i] == mc[i]
    {
      forall j | 0 <= j < |a[i]|
        ensures ma[i][j] == mc[i][j]
      {
        assert InWindow(a[i][j], b) <==> InWindow(c[i][j], b);
      }
    }
  }

  /** Under a wrap-free threshold `t2`, every pixel matched with `t1 <= t2` is matched with `t2`. */
  lemma MaskMonotoneInThreshold(img: Picture, center: YCrCb, t1: int, t2: int)
    requires 0 <= t1 <= t2
    requires NoWrap(center.cr, t2) && NoWrap(center.cb, t2)
    ensures forall i, j :: 0 <= i < |img| && 0 <= j < |img[i]| ==>
              RawMask(img, SourceWindow(center, t1).value)[i][j] == 255 ==>
              RawMask(img, SourceWindow(center, t2).value)[i][j] == 255
  {
    forall i, j | 0 <= i < |img| && 0 <= j < |img[i]|
      ensures RawMask(img, SourceWindow(center, t1).value)[i][j] == 255 ==>
              RawMask(img, SourceWindow(center, t2).value)[i][j] == 255
    {
      SourceMonotone(img[i][j], center, t1, t2);
    }
  }

  /** With threshold 0 the mask is 255 exactly at the pixels whose Cr and Cb equal the reference's. */
  lemma MaskExactAtZeroThreshold(img: Picture, center: YCrCb)
    ensures forall i, j :: 0 <= i < |img| && 0 <= j < |img[i]| ==>
              (RawMask(img, SourceWindow(center, 0).value)[i][j] == 255
               <==> img[i][j].cr == center.cr && img[i][j].cb == center.cb)
  {
    forall i, j | 0 <= i < |img| && 0 <= j < |img[i]|
      ensures RawMask(img, SourceWindow(center, 0).value)[i][j] == 255
              <==> img[i][j].cr == center.cr && img[i][j].cb == center.cb
    {
      SourceZeroThresholdExact(img[i][j], center);
    }
  }

  /** An inverted window, such as one whose upper chroma bound wrapped, yields an all-zero mask. */
  lemma InvertedWindowMaskIsBlack(img: Picture, b: Bounds)
    requires Inverted(b)
    ensures Uniform(RawMask(img, b), 0)
  {
    EmptyIffInverted(b);
  }
}
