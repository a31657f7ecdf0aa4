/** Pixel grids: a colour image already converted to YCrCb, and single-channel masks. */
module Raster {
  import opened Bytes

  /** One pixel in OpenCV's YCrCb channel order: luma, red-difference chroma, blue-difference chroma. */
  datatype YCrCb = YCrCb(y: Byte, cr: Byte, cb: Byte)

  /** A colour image, row by row. Rows are not required to have equal length. */
  type Picture = seq<seq<YCrCb>>

  /** A single-channel 8-bit image, row by row. */
  type Mask = seq<seq<Byte>>

  /** Two grids have the same number of rows and equally long corresponding rows. */
  predicate SameShape<A, B>(a: seq<seq<A>>, b: seq<seq<B>>) {
    |a| == |b| && forall i :: 0 <= i < |a| ==> |a[i]| == |b[i]|
  }

  /** Two pictures of the same shape whose pixels agree on both chroma channels (luma may differ). */
  predicate SameChroma(a: Picture, b: Picture) {
    && SameShape(a, b)
    && forall i, j :: 0 <= i < |a| && 0 <= j < |a[i]| ==>
         a[i][j].cr == b[i][j].cr && a[i][j].cb == b[i][j].cb
  }

  /** Every cell of the mask holds the given value. */
  predicate Uniform(m: Mask, v: Byte) {
    forall i, j :: 0 <= i < |m| && 0 <= j < |m[i]| ==> m[i][j] == v
  }

  /** A `height` by `width` picture of a single colour. */
  function Solid(height: nat, width: nat, p: YCrCb): Picture
  {
    seq(height, _ => seq(width, _ => p))
  }
}
