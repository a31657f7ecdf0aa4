/**
 * The mask step of `CloseColorMaskInvocation.invoke`: window, match, invert, refine, blur, invert.
 * The morphology (dilate, erode, open) and the Gaussian blur are OpenCV operations whose code is
 * not part of this model; they are parameters of the pipeline.
 */
module Pipeline {
  import opened Bytes
  import opened Raster
  import opened Window
  import opened InRange
  import opened Invert
  import opened Smoothing

  /** The node's tuning fields. */
  datatype Params = Params(iterations: int, kernelSize: int, threshold: int, smoothOutline: int)

  /** The node's defaults: one iteration, kernel 2, threshold 5, smoothing 5. */
  const Defaults := Params(1, 2, 5, 5)

  /** Dilate, erode and open with an elliptical element of the given kernel size, for the given number of iterations. */
  type Refiner = (Mask, int, int) -> Mask

  /** Gaussian blur with a square kernel of the given extent. */
  type Blurrer = (Mask, int) -> Mask

  /** Both library stages return a mask of the shape they were given. */
  ghost predicate KeepsShape(refine: Refiner, blur: Blurrer) {
    && (forall m, n, k :: SameShape(refine(m, n, k), m))
    && (forall m, k :: SameShape(blur(m, k), m))
  }

  /** Everything after the raw match: invert, refine, blur with an odd kernel, invert back. */
  function Finish(raw: Mask, p: Params, refine: Refiner, blur: Blurrer): (r: Mask)
    ensures KeepsShape(refine, blur) ==> SameShape(r, raw)
  {
    InvertMask(blur(refine(InvertMask(raw), p.iterations, p.kernelSize), OddKernel(p.smoothOutline)))
  }

  /** The mask as the source computes it under NumPy 2, with the 8-bit window. */
  function GenerateMask(img: Picture, color: YCrCb, p: Params, refine: Refiner, blur: Blurrer): (r: Result<Mask>)
    ensures r.Ok? <==> 0 <= p.threshold <= 255
    ensures r.Ok? && KeepsShape(refine, blur) ==> SameShape(r.value, img)
  {
    match SourceWindow(color, p.threshold)
    case Err(e) => Err(e)
    case Ok(w) => Ok(Finish(RawMask(img, w), p, refine, blur))
  }

  /** The mask with the clamped window the source evidently intends; a negative threshold is rejected. */
  function GenerateIntendedMask(img: Picture, color: YCrCb, p: Params, refine: Refiner, blur: Blurrer): (r: Result<Mask>)
    ensures r.Ok? <==> 0 <= p.threshold
    ensures r.Ok? && KeepsShape(refine, blur) ==> SameShape(r.value, img)
  {
    if p.threshold < 0 then Err(ThresholdOutOfRange(p.threshold))
    else Ok(Finish(RawMask(img, ClampedWindow(color, p.threshold)), p, refine, blur))
  }

  /** With stages that change nothing, the two inversions cancel and the output is the raw match mask. */
  lemma PassThroughGivesRawMask(img: Picture, color: YCrCb, p: Params)
    requires 0 <= p.threshold <= 255
    ensures GenerateMask(img, color, p, (m, n, k) => m, (m, k) => m)
            == Ok(RawMask(img, SourceWindow(color, p.threshold).value))
  {
    InvertInvolution(RawMask(img, SourceWindow(color, p.threshold).value));
  }

  /** Whatever the stages do, the output does not depend on luma. */
  lemma OutputIgnoresLuma(a: Picture, c: Picture, color: YCrCb, p: Params, refine: Refiner, blur: Blurrer)
    requires SameChroma(a, c)
    ensures GenerateMask(a, color, p, refine, blur) == GenerateMask(c, color, p, refine, blur)
  {
    if 0 <= p.threshold <= 255 {
      MaskIgnoresLuma(a, c, SourceWindow(color, p.threshold).value);
    }
  }

  /** An even `smooth_outline` behaves exactly like the next odd value; in particular 0 behaves like 1. */
  lemma EvenOutlineSameAsNextOdd(img: Picture, color: YCrCb, p: Params, refine: Refiner, blur: Blurrer)
    requires !IsOdd(p.smoothOutline)
    ensures GenerateMask(img, color, p, refine, blur)
            == GenerateMask(img, color, p.(smoothOutline := p.smoothOutline + 1), refine, blur)
  {
    OddKernelFacts(p.smoothOutline);
    OddKernelFacts(p.smoothOutline + 1);
  }

  /** When neither chroma bound wraps, the source and the intended pipelines agree. */
  lemma AsWrittenAgreesWithoutWrap(img: Picture, color: YCrCb, p: Params, refine: Refiner, blur: Blurrer)
    requires NoWrap(color.cr, p.threshold) && NoWrap(color.cb, p.threshold)
    ensures GenerateMask(img, color, p, refine, blur) == GenerateIntendedMask(img, color, p, refine, blur)
  {
    SourceWindowNoWrap(color, p.threshold);
  }

  /**
   * A solid picture of a Cr-255 reference colour, matched against itself with the default
   * parameters and pass-through stages: the source outputs all 0, the intended window all 255.
   */
  lemma SolidSaturatedReference(height: nat, width: nat)
    ensures var red := YCrCb(76, 255, 85);
            var img := Solid(height, width, red);
            && GenerateMask(img, red, Defaults, (m, n, k) => m, (m, k) => m).Ok?
            && Uniform(GenerateMask(img, red, Defaults, (m, n, k) => m, (m, k) => m).value, 0)
            && GenerateIntendedMask(img, red, Defaults, (m, n, k) => m, (m, k) => m).Ok?
            && Uniform(GenerateIntendedMask(img, red, Defaults, (m, n, k) => m, (m, k) => m).value, 255)
  {
    var red := YCrCb(76, 255, 85);
    var img := Solid(height, width, red);
    SaturatedReferenceCounterexample();
    PassThroughGivesRawMask(img, red, Defaults);
    InvertedWindowMaskIsBlack(img, SourceWindow(red, 5).value);
    var raw := RawMask(img, ClampedWindow(red, 5));
    InvertInvolution(raw);
    assert Uniform(raw, 255);
  }

  /**
   * A picture whose left `half` columns carry the reference chroma and whose other columns have
   * a Cr further than the threshold from it: with pass-through stages and a wrap-free threshold
   * the output is 255 on the left and 0 on the right, with a sharp boundary.
   */
  lemma SplitPictureSharpBoundary(img: Picture, color: YCrCb, other: YCrCb, p: Params, half: nat)
    requires NoWrap(color.cr, p.threshold) && NoWrap(color.cb, p.threshold)
    requires Abs(other.cr - color.cr) > p.threshold
    requires forall i, j :: 0 <= i < |img| && 0 <= j < |img[i]| ==>
               img[i][j] == (if j < half then color.(y := img[i][j].y) else other)
    ensures GenerateMask(img, color, p, (m, n, k) => m, (m, k) => m).Ok?
    ensures var out := GenerateMask(img, color, p, (m, n, k) => m, (m, k) => m).value;
            forall i, j :: 0 <= i < |img| && 0 <= j < |img[i]| ==> out[i][j] == (if j < half then 255 else 0)
  {
    var w := SourceWindow(color, p.threshold).value;
    PassThroughGivesRawMask(img, color, p);
    forall i, j | 0 <= i < |img| && 0 <= j < |img[i]|
      ensures RawMask(img, w)[i][j] == (if j < half then 255 else 0)
    {
      SourceMatchIff(img[i][j], color, p.threshold);
    }
  }
}
