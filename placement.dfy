/**
 * Setup before the frame loop (main.py:79-86): the watermark is scaled once,
 * then its top-left corner is placed so that it sits a fixed margin from the
 * right and bottom edges of the frame.
 */
module Placement {
  import opened Results
  import opened Scaler

  /** The fixed margin, in pixels, from the right and bottom frame edges. */
  const Margin: nat := 10

  /** The resized watermark size and the top-left corner of its region in the frame. */
  datatype Layout = Layout(size: Dims, x: nat, y: nat)

  datatype SetupError =
    | ScaleFailed(cause: ScaleError)
    | NoRoomForMargin(size: Dims, frameH: nat, frameW: nat)

  /** `position = (W - w - 10, H - h - 10)`, in (x, y) order. */
  function Position(H: nat, W: nat, d: Dims): (p: (int, int))
    ensures p.0 + d.w + Margin == W && p.1 + d.h + Margin == H
  {
    (W - d.w - Margin, H - d.h - Margin)
  }

  /** The rectangle [y, y + h) x [x, x + w) lies within the frame exactly when the margin fits on both axes. */
  lemma RegionInFrame(H: nat, W: nat, d: Dims)
    ensures var p := Position(H, W, d);
      (0 <= p.0 && p.0 + d.w <= W && 0 <= p.1 && p.1 + d.h <= H) <==> (W >= d.w + Margin && H >= d.h + Margin)
  {
  }

  /**
   * Scale the watermark, then place it; both failures are reported before any
   * frame is read.
   */
  function Setup(original: Dims, H: nat, W: nat): (r: Result<Layout, SetupError>)
    ensures r.Ok? ==>
      ResizeWatermark(original, H, W) == Ok(r.value.size) &&
      r.value.x + r.value.size.w + Margin == W &&
      r.value.y + r.value.size.h + Margin == H
    ensures r.Err? <==>
      ResizeWatermark(original, H, W).Err? ||
      W < ResizeWatermark(original, H, W).value.w + Margin ||
      H < ResizeWatermark(original, H, W).value.h + Margin
  {
    match ResizeWatermark(original, H, W)
    case Err(e) => Err(ScaleFailed(e))
    case Ok(size) =>
      var p := Position(H, W, size);
      if p.0 < 0 || p.1 < 0 then Err(NoRoomForMargin(size, H, W))
      else Ok(Layout(size, p.0, p.1))
  }

  /** Every successful layout puts the whole watermark inside the frame, within a quarter of it on each axis. */
  lemma SetupContained(original: Dims, H: nat, W: nat)
    requires Setup(original, H, W).Ok?
    ensures var l := Setup(original, H, W).value;
      l.x + l.size.w <= W && l.y + l.size.h <= H && Fits(l.size, H, W)
  {
  }

  /** A frame at least 13 pixels on each side always leaves room for a quarter-size watermark and the margin. */
  lemma SetupSucceedsOnLargeFrames(original: Dims, H: nat, W: nat)
    requires ResizeWatermark(original, H, W).Ok?
    requires H >= 13 && W >= 13
    ensures Setup(original, H, W).Ok?
  {
  }

  /** A frame 10 pixels or less on a side has no room for any nonempty watermark and the margin. */
  lemma SetupRejectsTinyFrames(original: Dims, H: nat, W: nat)
    requires Positive(original)
    requires H <= Margin || W <= Margin
    ensures Setup(original, H, W).Err?
  {
  }

  /** A 4 x 4 frame: the watermark still scales to within bounds, but the setup is rejected for the margin. */
  lemma FourByFourExample()
    ensures Setup(Dims(2, 2), 4, 4) == Err(NoRoomForMargin(Dims(1, 1), 4, 4))
  {
  }
}
