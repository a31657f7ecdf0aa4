# Close Color Mask — a Dafny model of the colour-window mask step

The InvokeAI node `CloseColorMaskInvocation` builds a grayscale selection mask. It selects the pixels whose colour is close to a reference colour. The steps are:

1. Convert the picture and the reference colour to YCrCb.
2. Build an inclusive window: full range on luma, reference chroma ∓ `threshold` on Cr and Cb.
3. Mark each pixel 255 or 0 with `cv2.inRange`.
4. Invert the mask, refine it with dilate/erode/open, blur it with an odd Gaussian kernel, and invert it back.

This project models steps 2 to 4 on pictures that are already in YCrCb:

- `bytes.dfy` (`Bytes`): uint8 values, 8-bit wrap, Python's `max`/`min`.
- `raster.dfy` (`Raster`): YCrCb pixels, pictures and masks as nested sequences, shape predicates.
- `window.dfy` (`Window`): the window bounds. `SourceWindow` uses the source's 8-bit arithmetic under NumPy 2; `NumPy1Window` uses NumPy 1.x's int64 arithmetic. `ClampedWindow` is the clamped window the code evidently intends. Also the inclusive per-pixel test.
- `in_range.dfy` (`InRange`): the `cv2.inRange` mask over a picture.
- `invert.dfy` (`Invert`): `cv2.bitwise_not` on masks.
- `smoothing.dfy` (`Smoothing`): the odd normalisation of `smooth_outline`.
- `pipeline.dfy` (`Pipeline`): the whole mask step. The morphology and the blur are function parameters.

The result of the threshold arithmetic depends on the NumPy version. The reference chroma `center_color[k]` is a NumPy `uint8` scalar and `threshold` is a Python int (close_color_mask.py:44-61).

- Under NumPy 2 (the promotion rules of NEP 50), `center_color[k] ∓ threshold` is a `uint8` that wraps modulo 256 before `max(…, 0)` and `min(…, 255)` see it, so those clamps never change anything. A threshold outside 0..255 raises `OverflowError`. `Window.SourceWindow` and `Pipeline.GenerateMask` model this.
- Under NumPy 1.x, the same expression is an `int64`, so the clamps really clamp. `Window.NumPy1Window` models this, and `Window.NumPy1WindowIsClamped` proves it equals `Window.ClampedWindow` for every threshold ≥ 0. Under NumPy 1.x the program therefore computes `Pipeline.GenerateIntendedMask` for every threshold ≥ 0.

The visible `max(…, 0)` and `min(…, 255)` show that a window clamped to the byte range is intended. Under NumPy 2 the code gives that window only when neither bound wraps (see Findings).

## Model

| member | source | states |
|---|---|---|
| Bytes.Max | close_color_mask.py:55-56 | Python's `max` of two integers: the result is at least both arguments and is one of them |
| Bytes.Min | close_color_mask.py:60-61 | Python's `min` of two integers: the result is at most both arguments and is one of them |
| Bytes.U8 | close_color_mask.py:53-62 | storing an integer in a uint8 keeps it modulo 256: the result differs from the input by a multiple of 256 and equals it when it is already a byte |
| Window.InWindow | close_color_mask.py:65 | the inclusive per-channel test of `cv2.inRange`; a pixel can lie in a window only if no channel's lower bound exceeds its upper bound |
| Window.SourceWindow | close_color_mask.py:53-62 | under NumPy 2 arithmetic, the window step fails exactly when the threshold is outside 0..255 (errors raised inside the OpenCV stages are not modelled); otherwise luma bounds are 0 and 255, and each chroma bound is the reference chroma ∓ threshold taken modulo 256, so the max/min clamps are no-ops |
| Window.NumPy1Window | close_color_mask.py:53-62 | the bounds under NumPy 1.x arithmetic (exact int64, real clamps, then a cast to uint8): luma bounds 0 and 255; a negative threshold makes the lower chroma bound wrap modulo 256 |
| Window.NumPy1WindowIsClamped | close_color_mask.py:53-62 | for every threshold ≥ 0 the NumPy 1.x bounds equal the clamped window |
| Window.ClampedWindow | close_color_mask.py:53-62 | the intended window: luma bounds 0 and 255, and each chroma interval contains the reference chroma |
| Window.ClampedMatchIff | close_color_mask.py:53-65 | a pixel is in the clamped window iff both its chroma values are within the threshold of the reference's |
| Window.SourceWindowNoWrap | close_color_mask.py:55-61 | when t ≤ c and c + t ≤ 255 on both chroma channels, the source window equals the clamped window, with bounds exactly c - t and c + t |
| Window.SourceMatchIff | close_color_mask.py:53-65 | without wrap, a pixel matches iff both its chroma values are within the threshold of the reference's (symmetric, endpoints included) |
| Window.SourceMonotone | close_color_mask.py:53-65 | without wrap at t2, a pixel matched with t1 ≤ t2 is also matched with t2 |
| Window.SourceZeroThresholdExact | close_color_mask.py:53-65 | with threshold 0, a pixel matches iff its Cr and Cb equal the reference's |
| Window.ReferenceMatchedIffNoWrap | close_color_mask.py:55-65 | the reference colour matches its own window iff neither chroma bound wraps |
| Window.EmptyIffInverted | close_color_mask.py:65 | a window matches no pixel iff some channel's lower bound exceeds its upper bound |
| Window.SaturatedReferenceCounterexample | close_color_mask.py:55-62 | for reference (76,255,85) and threshold 5, the Cr bounds are 250 and 4 and nothing matches; the clamped window contains the reference |
| InRange.RowMask | close_color_mask.py:65 | a row's mask has the row's length; each cell is 255 iff its pixel is in the window, else 0 |
| InRange.RawMask | close_color_mask.py:65 | the mask has the picture's shape and holds only 0 and 255; a cell is 255 iff its pixel is in the window |
| InRange.MaskIgnoresLuma | close_color_mask.py:53-65 | with luma bounds 0 and 255, pictures that differ only in luma get the same mask |
| InRange.MaskMonotoneInThreshold | close_color_mask.py:53-65 | without wrap at t2, every cell set with t1 ≤ t2 is also set with t2 |
| InRange.MaskExactAtZeroThreshold | close_color_mask.py:53-65 | with threshold 0, a cell is 255 iff its pixel's Cr and Cb equal the reference's |
| InRange.InvertedWindowMaskIsBlack | close_color_mask.py:55-65 | an inverted window, e.g. one whose upper bound wrapped, gives an all-zero mask |
| Invert.InvertMask | close_color_mask.py:69 | keeps the shape, swaps 0 and 255, and each output byte plus its input byte is 255 |
| Invert.Not | close_color_mask.py:69 | `255 - x` equals the 8-bit bitwise complement of x; it maps 0 to 255 and 255 to 0, and flips the top bit (inputs below 128 map to 128 or above, and back) |
| Invert.NotInvolution | close_color_mask.py:78 | byte complement is an involution and swaps 0 and 255 |
| Invert.InvertInvolution | close_color_mask.py:69-78 | inverting a mask twice with nothing in between restores it |
| Invert.InvertUniform | close_color_mask.py:78 | inverting a uniform mask of value v gives the uniform mask of 255 - v |
| Smoothing.OddKernel | close_color_mask.py:75 | the normalised extent is the smallest odd integer not below `smooth_outline` |
| Smoothing.OddKernelFacts | close_color_mask.py:75 | odd input is kept (and only odd input), other input becomes input + 1, and normalising twice equals normalising once |
| Smoothing.OddKernelExamples | close_color_mask.py:75 | 0 → 1, 1 → 1, 4 → 5, 5 → 5 |
| Pipeline.Finish | close_color_mask.py:69-78 | invert, refine, blur with the odd extent, invert back; if morphology and blur keep shape, the result has the raw mask's shape |
| Pipeline.GenerateMask | close_color_mask.py:53-78 | under NumPy 2 arithmetic, the window step fails exactly when the threshold is outside 0..255 (errors raised inside the OpenCV stages are not modelled); if morphology and blur keep shape, the output has the picture's shape |
| Pipeline.GenerateIntendedMask | close_color_mask.py:53-78 | the same pipeline on the clamped window, which is also what NumPy 1.x computes for every threshold ≥ 0: the window step fails exactly on a negative threshold (errors raised inside the OpenCV stages are not modelled); keeps shape under the same condition |
| Pipeline.PassThroughGivesRawMask | close_color_mask.py:65-78 | when morphology and blur change nothing, the two inversions cancel and the output is the raw `inRange` mask |
| Pipeline.OutputIgnoresLuma | close_color_mask.py:53-78 | whatever morphology and blur do, pictures that differ only in luma give the same output |
| Pipeline.EvenOutlineSameAsNextOdd | close_color_mask.py:75-76 | an even `smooth_outline` gives exactly the output of the next odd value; 0 behaves like 1 |
| Pipeline.AsWrittenAgreesWithoutWrap | close_color_mask.py:53-62 | without wrap on either chroma channel, the source pipeline and the intended pipeline give the same result |
| Pipeline.SolidSaturatedReference | close_color_mask.py:53-78 | a solid picture of reference (76,255,85), default parameters, pass-through stages: the source outputs all 0, the intended window all 255 |
| Pipeline.SplitPictureSharpBoundary | close_color_mask.py:53-78 | left columns have the reference chroma and right columns a Cr beyond the threshold; without wrap and with pass-through stages, the output is 255 on the left and 0 on the right |

## Left out

- Image-service I/O (`get_pil_image`, `images.create`) and the `ImageOutput` packaging (close_color_mask.py:41, 80-94): storage plumbing with no logic.
- PIL/OpenCV channel reordering (`pil2cv2_image`, `cv2Pilimage`, close_color_mask.py:96-102): library calls.
- The BGR→YCrCb conversion of the picture and the reference colour (close_color_mask.py:44-51, 64). It is OpenCV's fixed-point arithmetic, so pictures and the reference colour are model inputs already in YCrCb. The statement that pure red maps to about (76, 255, 85) is by the standard conversion formulas, not proved.
- The elliptical structuring element, dilate, erode and open (close_color_mask.py:67, 71-73). These are OpenCV operations whose code is not part of this model. They are the `refine` parameter, which receives iterations and kernel size. Shape preservation is an assumption (`KeepsShape`). The `iterations = 0` behaviour and the `kernel_size` validation are therefore not modelled.
- The Gaussian blur (close_color_mask.py:76): floating-point library numerics. It is the `blur` parameter, which receives the normalised odd extent.
- Plugin registration and field declarations (close_color_mask.py:23-37): no logic.
- Window.SourceWindow: follows NumPy 2 arithmetic only. There a threshold outside 0..255 raises `OverflowError`, modelled as an error. The NumPy 1.x arithmetic is `Window.NumPy1Window`.
- Window.NumPy1Window: assumes the threshold fits in an int64. A larger Python int would leave NumPy 1.x's int64 promotion, and that case is not modelled.
- The `RuntimeWarning` that NumPy 2 emits when the uint8 result overflows is not modelled. The model keeps only the wrapped value.
- Pipeline.GenerateMask: returns `Ok` for every threshold in 0..255, because the `refine` and `blur` parameters are total. The program also raises inside OpenCV in two cases. With `kernel_size ≤ 0`, `cv2.getStructuringElement` raises (close_color_mask.py:67). With a negative `smooth_outline`, the normalised extent stays negative (Python's `-1 % 2 == 1`), and `cv2.GaussianBlur` with sigma 0 rejects a non-positive extent (close_color_mask.py:75-76). Those error conditions belong to OpenCV code that is not part of this model.
- Pipeline.GenerateIntendedMask: hides the same two OpenCV errors (`kernel_size ≤ 0`, negative `smooth_outline`), for the same reason.
- Pipeline.GenerateIntendedMask: rejects a negative threshold. Under NumPy 1.x, a negative threshold instead gives byte-wrapped bounds (`Window.NumPy1Window`) with no error.

## Findings

| source | as written | input that shows it | evidently intended | confidence | as-written member | corrected member |
|---|---|---|---|---|---|---|
| close_color_mask.py:55-61 | under NumPy 2, `center_color[k] ∓ threshold` is computed in uint8 and wraps modulo 256 before `max(…, 0)` / `min(…, 255)`, so the clamps are dead | reference Cr 255 (pure red), threshold 5: upper Cr = 260 mod 256 = 4, lower Cr = 250; the window is inverted and no pixel matches, not even the reference colour, so a solid red picture gets an all-0 mask | the window [max(c - t, 0), min(c + t, 255)] in unbounded integers, which always contains the reference chroma | version-dependent: high under NumPy ≥ 2, absent under NumPy 1.x (int64 arithmetic, `Window.NumPy1WindowIsClamped`); not executed | Window.ReferenceMatchedIffNoWrap | Window.ClampedMatchIff |
