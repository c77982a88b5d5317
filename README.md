# video-watermark, modelled in Dafny

A model of the core of a small tool that stamps an image watermark into the
bottom-right corner of every frame of a video. It covers two pieces of logic:

- **Scaling** (helper.py, `resize_watermark`). The watermark's (height, width)
  is halved on both axes, with truncation, until it is no more than a quarter
  of the frame on each axis. The model works on the dimensions only. A halving
  that would produce a zero side is an error result: with such a size,
  `cv2.resize` raises.
- **Placement, compositing and the frame loop** (main.py). The top-left corner
  is `(W - w - 10, H - h - 10)`. The mask is channel index 1 of the watermark,
  which is its green colour channel. The frame part of the region of interest
  (ROI) is kept where `bitwise_not(mask) != 0`. The watermark colour is kept
  where `mask != 0`. The two parts are added with weights 1 and 0.12, the sum
  is saturated to [0, 255], and the result is written back into the frame in
  place. Frames are read, composited and written in order until the stream
  ends or the quit key is seen.

Files, one module each: `results.dfy` (a Result type), `scaler.dfy`,
`pixels.dfy` (the per-pixel arithmetic), `placement.dfy` (the setup before the
loop), `compositor.dfy` (one frame, in place on an `array2`) and `driver.dfy`
(the loop).

Modelling choices:

- The fade factor `watermark_beta = 0.12` is modelled as exactly 12/100, rounded
  to the nearest integer (`Pixels.Fade`). On 8-bit data, `addWeighted` computes
  `f * 1 + v * beta + 0` in float32, with `beta` stored as 0.1199999973..., and
  rounds to nearest. The exact value `f + 12v/100` is never closer than 0.02 to
  a half-integer, because `12v mod 100` is a multiple of 4 (`Pixels.NoRoundingTie`
  proves it is at most 48 or at least 52). The float32 error for sums up to 286
  is below 1e-4. So the float computation rounds to the same integer as the
  exact one, which is `f + round(0.12 * v)`.
- The quit key is a parameter `quit: nat -> bool`. It says whether the key poll
  after the i-th written frame saw `q`.
- The video source is a sequence of frame values. Each one is loaded into a
  fresh frame buffer, as `video.read()` returns a fresh array. The sink is the
  sequence of written frames.
- The resized watermark's pixels come from `cv2.resize` interpolation and are
  arbitrary. `Driver.WatermarkVideo` takes the resampling as a parameter and
  only assumes it returns an image of the requested size.

Behaviour of the code that the model keeps as written:

- The comment at main.py:2 speaks of transparency, but the mask is colour
  channel 1, not the alpha channel. The alpha value has no effect
  (`Pixels.AlphaIgnored`).
- Where the mask is 255, the frame's contribution is zeroed: the pixel becomes
  `0.12 * watermark colour`. So a mask that is nonzero everywhere does not give
  `frame + 0.12 * watermark` everywhere; that only holds where the mask is
  1..254.
- Both sides are halved even when only one is too large. A 1-high, 1000-wide
  watermark on a 100 x 100 frame has a height that already fits, yet it is
  halved to 0 along with the width, and the resize fails
  (`Scaler.ZeroHeightExample`). A 600-high, 800-wide watermark on a 480 x 640
  frame is halved three times, to 75 x 100 (`Scaler.ConvergenceExample`).
- The code has no guard against a zero dimension, and none against a watermark
  that leaves no room for the 10-pixel margin. In the first case `cv2.resize`
  raises. In the second, the ROI slice starts at a negative index, which numpy
  counts from the far edge. On most such frames the slice cannot match the
  watermark's size, and the `cv2.bitwise_and` on the first frame raises. Both
  cases are modelled as setup errors (`Placement.Setup`), reported before any
  frame is processed.

## Model

| member | source | states |
|---|---|---|
| `Scaler.Halve` | helper.py:8 | each side becomes its truncated half (`2r <= d < 2r + 2`) on both axes at once; `h + w` strictly decreases while positive, which is the recursion's termination measure |
| `Scaler.ResizeWatermark` | helper.py:4-11 | a successful result is within a quarter of the frame on both axes, no larger than the input, and nonempty when the input is; failure only happens when the input did not fit and a halving reached a zero side |
| `Scaler.ResizeUnchangedWhenFits` | helper.py:7-11 | a watermark already within bounds is returned unchanged, after zero halvings |
| `Scaler.ShrinkClosedForm` | helper.py:8-9 | k halving steps divide both sides by the same power of two: `(h / 2^k, w / 2^k)`, truncating |
| `Scaler.ResizeOkHalvings` | helper.py:7-9 | a successful result is `(h / 2^k, w / 2^k)` with one k for both sides; k is minimal (every earlier size violated the bound) and no intermediate size has a zero side |
| `Scaler.ResizeErrHalvings` | helper.py:7-9 | a failure arises after k halvings that all stayed too large, and the error names the size after halving k + 1, which has a zero side |
| `Scaler.ResizeFromHalvings` | helper.py:7-11 | conversely, if k is the minimal number of halvings with no zero side on the way, the result is exactly `Ok((h / 2^k, w / 2^k))` |
| `Scaler.ConvergenceExample` | helper.py:4-11 | 600 x 800 on a 480 x 640 frame gives 75 x 100 |
| `Scaler.ZeroHeightExample` | helper.py:7-8 | 1 x 1000 on a 100 x 100 frame fails: both sides are halved although only the width is too large, and the height becomes 0 |
| `Pixels.BitwiseNot` | main.py:109 | the inverted mask complements the mask to 0xFF; it is 0 exactly where the mask is 255 |
| `Pixels.Saturate` | main.py:119 | the result is the 8-bit value nearest to the exact sum, and equals the sum when it is in range |
| `Pixels.Fade` | main.py:119 | `0.12 * v` rounded to the nearest integer: within one half of `12v / 100`, never above v, at most 31 |
| `Pixels.NoRoundingTie` | main.py:24 | for every 8-bit v, `12v mod 100` is at most 48 or at least 52, so `0.12 * v` is at least 0.02 away from a half-integer |
| `Pixels.AddWeightedChannel` | main.py:119 | the channel is `min(255, src1 + round(0.12 * src2))`: it saturates at 255 and is never below either part |
| `Pixels.BlendPixel` | main.py:108-119 | mask 0 leaves the frame pixel unchanged; mask 255 gives the faded watermark colour alone; masks 1..254 give the saturated sum of the frame pixel and the faded watermark colour |
| `Pixels.BlendNeverDarkens` | main.py:119 | wherever the frame part is kept (mask not 255), no output channel is darker than the frame's |
| `Pixels.AlphaIgnored` | main.py:108-115 | the mask is channel index 1 of the watermark (its green colour channel), not the alpha channel: changing the alpha value never changes the blended pixel |
| `Placement.Position` | main.py:86 | the watermark's right and bottom edges are exactly 10 pixels from the frame's: `x + w + 10 == W`, `y + h + 10 == H` |
| `Placement.RegionInFrame` | main.py:105 | the ROI lies within the frame exactly when `W >= w + 10` and `H >= h + 10` |
| `Placement.Setup` | main.py:79-86 | a layout carries the size the scaler returned and the corner 10 pixels from the right and bottom edges; setup fails exactly when scaling fails or the margin does not fit |
| `Placement.SetupContained` | main.py:79-86 | every successful layout puts the whole watermark inside the frame and within a quarter of it on both axes |
| `Placement.SetupSucceedsOnLargeFrames` | main.py:79-86 | on frames at least 13 pixels on each side, a successful scaling always leaves room for the margin |
| `Placement.SetupRejectsTinyFrames` | main.py:79-86 | on frames 10 pixels or less on a side, setup fails for every nonempty watermark |
| `Placement.FourByFourExample` | main.py:79-86 | a 2 x 2 watermark on a 4 x 4 frame scales to 1 x 1, and setup is rejected for the margin |
| `Compositor.Composite` | main.py:104-122 | the composited frame has the frame's shape; pixels outside `[y, y+h) x [x, x+w)` are unchanged; each ROI pixel is the blend of the frame pixel with the watermark pixel at the same offset |
| `Compositor.ClearMaskKeepsFrame` | main.py:108-122 | a watermark whose mask is zero everywhere leaves the frame byte for byte unchanged |
| `Compositor.PartialMaskAddsFadedColour` | main.py:108-119 | at an ROI pixel whose mask is 1..254, each channel is the saturated `frame + 0.12 * watermark colour` |
| `Compositor.FullMaskReplacesFrame` | main.py:109-119 | at an ROI pixel whose mask is 255, the frame pixel contributes nothing: the result is `0.12 * watermark colour` |
| `Compositor.BlendRow` | main.py:112-122 | one watermark row is blended into its frame row in place; every other row, and the row's pixels outside the ROI, keep their values |
| `Compositor.CompositeInPlace` | main.py:104-122 | the frame buffer's new contents are the composited frame of its old contents; only the ROI is written |
| `Driver.WrittenFromSpec` | main.py:94-132 | the loop writes a prefix of the source: no quit before its last written frame, and it stops short of the end only right after a frame whose key poll saw quit |
| `Driver.AllFramesWithoutQuit` | main.py:94-102 | without a quit, every source frame is written: one out per frame in |
| `Driver.QuitStopsAfterFrame` | main.py:128-132 | a quit after frame q means at most q + 1 frames are written |
| `Driver.ProcessVideo` | main.py:94-132 | the sink holds one composited frame per frame read, in source order, as many as the stop rule allows and never more than the source has |
| `Driver.WatermarkVideo` | main.py:79-132 | a setup failure writes no frame and returns that failure; otherwise the output is the loop's output with the resized watermark and the computed layout |

## Left out

- Command-line arguments, input file checks, and creating and clearing the output folder (main.py:26-59). This is file-system plumbing, and the parsed arguments are never used.
- Logging (main.py:14-17, 73-76, 93, 101).
- `cv2.VideoCapture` and `cv2.VideoWriter`: codecs, containers, the floating-point frame rate, and releasing resources (main.py:62-70, 89-90, 135-137). The source is a sequence of frames and the sink a sequence of output frames. A failed read ends the loop just as the end of the stream does, since `video.read()` does not tell the two apart.
- `cv2.imshow` and `cv2.waitKey` (main.py:125, 131). The key poll becomes the `quit` parameter.
- The pixels produced by `cv2.resize` interpolation (helper.py:8). Only the resulting size is modelled.
- Floating-point arithmetic inside `addWeighted`. It is modelled as exact 12/100 with round-to-nearest. That gives the same value for every 8-bit input: the exact value is at least 0.02 from a half-integer, and the float32 error is below 1e-4. The float error bound itself is argued, not proved.
- A watermark file without an alpha channel (3 channels). The model's watermark pixel has 4 channels. The mask and colour channels it uses are the same in both cases.
- Frames of differing sizes within one stream. `Driver.ProcessVideo` requires every frame to have the declared H x W size.
- Placement.Setup: the source has no margin check, and the model rejects every layout that does not fit the margin. In the source, such a layout usually fails inside `cv2.bitwise_and` on the first frame, after the output writer is opened. But on a side of 6 to 9 pixels, numpy's negative-index slicing wraps around to a slice of the right size, and the source composites the watermark at that wrapped position.
