/**
 * The inclusive colour window of close_color_mask.py: luma spans the whole byte range,
 * each chroma channel spans the reference chroma plus and minus the threshold.
 */
module Window {
  import opened Bytes
  import opened Raster

  /** The `lower_color` and `upper_color` arrays handed to `cv2.inRange`. */
  datatype Bounds = Bounds(lower: YCrCb, upper: YCrCb)

  datatype WindowError = ThresholdOutOfRange(threshold: int)

  datatype Result<T> = Ok(value: T) | Err(error: WindowError)

  /** The per-pixel test of `cv2.inRange`: every channel lies between its bounds, both ends included. */
  predicate InWindow(p: YCrCb, b: Bounds)
    ensures InWindow(p, b) ==> !Inverted(b)
  {
    && b.lower.y <= p.y <= b.upper.y
    && b.lower.cr <= p.cr <= b.upper.cr
    && b.lower.cb <= p.cb <= b.upper.cb
  }

  /** The luma bounds are the full byte range, so luma never decides a match. */
  predicate LumaFree(b: Bounds) {
    b.lower.y == 0 && b.upper.y == 255
  }

  /** Some channel has its lower bound above its upper bound. */
  predicate Inverted(b: Bounds) {
    b.lower.y > b.upper.y || b.lower.cr > b.upper.cr || b.lower.cb > b.upper.cb
  }

  /** Neither `c - t` nor `c + t` leaves the byte range, so 8-bit arithmetic on them is exact. */
  predicate NoWrap(c: Byte, t: int) {
    0 <= t <= c && c + t <= 255
  }

  /** Distance of a pixel's chroma from the reference chroma is at most `t` on both channels. */
  predicate ChromaWithin(p: YCrCb, center: YCrCb, t: int) {
    Abs(p.cr - center.cr) <= t && Abs(p.cb - center.cb) <= t
  }

  /**
   * The bounds under NumPy 2 promotion rules. The reference chroma is a NumPy uint8 and the
   * threshold a Python int, so `center - threshold` and `center + threshold` are uint8 results
   * that wrap modulo 256 before `max(…, 0)` and `min(…, 255)` see them. A threshold outside
   * the uint8 range cannot be combined with a uint8 scalar and is an error.
   */
  function SourceWindow(center: YCrCb, threshold: int): (r: Result<Bounds>)
    ensures r.Ok? <==> 0 <= threshold <= 255
    ensures r.Ok? ==> LumaFree(r.value)
    ensures r.Ok? ==> r.value.lower.cr == (center.cr - threshold) % 256
    ensures r.Ok? ==> r.value.lower.cb == (center.cb - threshold) % 256
    ensures r.Ok? ==> r.value.upper.cr == (center.cr + threshold) % 256
    ensures r.Ok? ==> r.value.upper.cb == (center.cb + threshold) % 256
  {
    if !(0 <= threshold <= 255) then
      Err(ThresholdOutOfRange(threshold))
    else
      var lower := YCrCb(0, Max(U8(center.cr - threshold), 0), Max(U8(center.cb - threshold), 0));
      var upper := YCrCb(255, Min(U8(center.cr + threshold), 255), Min(U8(center.cb + threshold), 255));
      Ok(Bounds(lower, upper))
  }

  /**
   * The bounds under NumPy 1.x promotion: a uint8 scalar combined with a Python int yields an
   * int64 scalar, so `center ∓ threshold` is exact, `max(…, 0)` and `min(…, 255)` really clamp,
   * and only building the `np.uint8([…])` bound arrays casts back to a byte (modulo 256).
   */
  function NumPy1Window(center: YCrCb, threshold: int): (r: Bounds)
    ensures LumaFree(r)
    ensures threshold < 0 ==> r.lower.cr == (center.cr - threshold) % 256
  {
    Bounds(YCrCb(0, U8(Max(center.cr - threshold, 0)), U8(Max(center.cb - threshold, 0))),
           YCrCb(255, U8(Min(center.cr + threshold, 255)), U8(Min(center.cb + threshold, 255))))
  }

  /** For every non-negative threshold the NumPy 1.x bounds are the clamped window: the byte cast changes nothing. */
  lemma NumPy1WindowIsClamped(center: YCrCb, threshold: int)
    requires 0 <= threshold
    ensures NumPy1Window(center, threshold) == ClampedWindow(center, threshold)
  {
  }

  /**
   * The window the clamping evidently intends: `center ∓ threshold` in unbounded integers,
   * clamped to the byte range.
   */
  function ClampedWindow(center: YCrCb, threshold: nat): (r: Bounds)
    ensures LumaFree(r)
    ensures r.lower.cr <= center.cr <= r.upper.cr
    ensures r.lower.cb <= center.cb <= r.upper.cb
  {
    Bounds(YCrCb(0, Max(center.cr - threshold, 0), Max(center.cb - threshold, 0)),
           YCrCb(255, Min(center.cr + threshold, 255), Min(center.cb + threshold, 255)))
  }

  /** A pixel lies in the clamped window exactly when its chroma is within the threshold on both channels. */
  lemma ClampedMatchIff(p: YCrCb, center: YCrCb, threshold: nat)
    ensures InWindow(p, ClampedWindow(center, threshold)) <==> ChromaWithin(p, center, threshold)
  {
  }

  /** Without 8-bit wrap the source's window is the clamped one, and its chroma bounds are exactly `c - t` and `c + t`. */
  lemma SourceWindowNoWrap(center: YCrCb, threshold: int)
    requires NoWrap(center.cr, threshold) && NoWrap(center.cb, threshold)
    ensures SourceWindow(center, threshold) == Ok(ClampedWindow(center, threshold))
    ensures SourceWindow(center, threshold).value.lower.cr == center.cr - threshold
    ensures SourceWindow(center, threshold).value.upper.cr == center.cr + threshold
    ensures SourceWindow(center, threshold).value.lower.cb == center.cb - threshold
    ensures SourceWindow(center, threshold).value.upper.cb == center.cb + threshold
  {
  }

  /** Without 8-bit wrap the source matches a pixel exactly when its chroma is within the threshold. */
  lemma SourceMatchIff(p: YCrCb, center: YCrCb, threshold: int)
    requires NoWrap(center.cr, threshold) && NoWrap(center.cb, threshold)
    ensures InWindow(p, SourceWindow(center, threshold).value) <==> ChromaWithin(p, center, threshold)
  {
    SourceWindowNoWrap(center, threshold);
    ClampedMatchIff(p, center, threshold);
  }

  /** Widening a wrap-free threshold never loses a matched pixel. */
  lemma SourceMonotone(p: YCrCb, center: YCrCb, t1: int, t2: int)
    requires 0 <= t1 <= t2
    requires NoWrap(center.cr, t2) && NoWrap(center.cb, t2)
    ensures InWindow(p, SourceWindow(center, t1).value) ==> InWindow(p, SourceWindow(center, t2).value)
  {
    SourceMatchIff(p, center, t1);
    SourceMatchIff(p, center, t2);
  }

  /** With threshold 0 a pixel matches exactly when both its chroma values equal the reference's. */
  lemma SourceZeroThresholdExact(p: YCrCb, center: YCrCb)
    ensures InWindow(p, SourceWindow(center, 0).value) <==> p.cr == center.cr && p.cb == center.cb
  {
    SourceMatchIff(p, center, 0);
  }

  /**
   * The reference colour matches its own window exactly when neither chroma bound wraps: a wrapped
   * upper bound falls below the reference chroma and a wrapped lower bound rises above it.
   */
  lemma ReferenceMatchedIffNoWrap(center: YCrCb, threshold: int)
    requires 0 <= threshold <= 255
    ensures InWindow(center, SourceWindow(center, threshold).value)
            <==> NoWrap(center.cr, threshold) && NoWrap(center.cb, threshold)
  {
  }

  /** A window matches nothing exactly when one of its channels has lower bound above upper bound. */
  lemma EmptyIffInverted(b: Bounds)
    ensures Inverted(b) <==> forall p :: !InWindow(p, b)
  {
    if !Inverted(b) {
      assert InWindow(b.lower, b);
    }
  }

  /**
   * A reference with Cr 255 (OpenCV maps pure red to about Y 76, Cr 255, Cb 85) and the default
   * threshold 5: the upper Cr bound wraps from 260 to 4, the window is inverted and matches no
   * pixel, not even the reference colour, while the clamped window keeps it.
   */
  lemma SaturatedReferenceCounterexample()
    ensures var red := YCrCb(76, 255, 85);
            var w := SourceWindow(red, 5).value;
            && w.lower.cr == 250 && w.upper.cr == 4
            && Inverted(w)
            && (forall p :: !InWindow(p, w))
            && InWindow(red, ClampedWindow(red, 5))
  {
    var red := YCrCb(76, 255, 85);
    EmptyIffInverted(SourceWindow(red, 5).value);
  }
}
