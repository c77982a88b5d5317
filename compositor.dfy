/**
 * Compositing one frame (main.py:104-122): the region of interest under the
 * watermark is blended pixel by pixel and written back into the frame in place.
 */
module Compositor {
  import opened Pixels
  import opened Placement

  /** A decoded frame, row-major: image[row][column]. */
  type Image = seq<seq<Bgr>>

  /** The resized watermark image, row-major. */
  type Watermark = seq<seq<Bgra>>

  predicate IsGrid<T>(g: seq<seq<T>>, rows: nat, cols: nat)
  {
    |g| == rows && forall i :: 0 <= i < rows ==> |g[i]| == cols
  }

  /** The layout's rectangle fits in an H x W frame and the watermark has the layout's size. */
  predicate Placed(wm: Watermark, l: Layout, H: nat, W: nat)
  {
    IsGrid(wm, l.size.h, l.size.w) && l.y + l.size.h <= H && l.x + l.size.w <= W
  }

  /** Pixel (i, j) of the frame lies in the region [y, y + h) x [x, x + w). */
  predicate InRegion(l: Layout, i: int, j: int)
  {
    l.y <= i < l.y + l.size.h && l.x <= j < l.x + l.size.w
  }

  /** The new value of frame pixel (i, j), whose old value is p. */
  function PixelAfter(p: Bgr, wm: Watermark, l: Layout, i: int, j: int): Bgr
    requires IsGrid(wm, l.size.h, l.size.w)
  {
    if InRegion(l, i, j) then BlendPixel(p, wm[i - l.y][j - l.x]) else p
  }

  /** The composited frame, as a value. */
  function Composite(frame: Image, H: nat, W: nat, wm: Watermark, l: Layout): (r: Image)
    requires IsGrid(frame, H, W) && Placed(wm, l, H, W)
    ensures IsGrid(r, H, W)
    ensures forall i, j :: 0 <= i < H && 0 <= j < W && !InRegion(l, i, j) ==> r[i][j] == frame[i][j]
    ensures forall i, j :: 0 <= i < H && 0 <= j < W && InRegion(l, i, j) ==>
      r[i][j] == BlendPixel(frame[i][j], wm[i - l.y][j - l.x])
  {
    seq(H, i requires 0 <= i < H =>
      seq(W, j requires 0 <= j < W => PixelAfter(frame[i][j], wm, l, i, j)))
  }

  /** Two grids of the same shape that agree at every pixel are equal. */
  lemma GridEq(a: Image, b: Image, H: nat, W: nat)
    requires IsGrid(a, H, W) && IsGrid(b, H, W)
    requires forall i, j :: 0 <= i < H && 0 <= j < W ==> a[i][j] == b[i][j]
    ensures a == b
  {
    forall i | 0 <= i < H ensures a[i] == b[i] {
      assert forall j :: 0 <= j < W ==> a[i][j] == b[i][j];
    }
  }

  /** A watermark whose mask is zero everywhere leaves the frame unchanged, byte for byte. */
  lemma ClearMaskKeepsFrame(frame: Image, H: nat, W: nat, wm: Watermark, l: Layout)
    requires IsGrid(frame, H, W) && Placed(wm, l, H, W)
    requires forall r, c :: 0 <= r < l.size.h && 0 <= c < l.size.w ==> Mask(wm[r][c]) == 0
    ensures Composite(frame, H, W, wm, l) == frame
  {
    var out := Composite(frame, H, W, wm, l);
    forall i, j | 0 <= i < H && 0 <= j < W ensures out[i][j] == frame[i][j] {
      if InRegion(l, i, j) {
        assert Mask(wm[i - l.y][j - l.x]) == 0;
      }
    }
    GridEq(out, frame, H, W);
  }

  /**
   * Where the mask is strictly between 0 and 255, every region pixel becomes
   * the frame pixel plus beta times the watermark colour, saturated.
   */
  lemma PartialMaskAddsFadedColour(frame: Image, H: nat, W: nat, wm: Watermark, l: Layout, i: nat, j: nat)
    requires IsGrid(frame, H, W) && Placed(wm, l, H, W)
    requires i < H && j < W && InRegion(l, i, j)
    requires 0 < Mask(wm[i - l.y][j - l.x]) < 255
    ensures var p, q, o := frame[i][j], wm[i - l.y][j - l.x], Composite(frame, H, W, wm, l)[i][j];
      o.b == Saturate(p.b as int + Fade(q.b) as int) &&
      o.g == Saturate(p.g as int + Fade(q.g) as int) &&
      o.r == Saturate(p.r as int + Fade(q.r) as int)
  {
  }

  /** Where the mask is 255, the frame's contribution is zeroed: the pixel is beta times the watermark colour. */
  lemma FullMaskReplacesFrame(frame: Image, H: nat, W: nat, wm: Watermark, l: Layout, i: nat, j: nat)
    requires IsGrid(frame, H, W) && Placed(wm, l, H, W)
    requires i < H && j < W && InRegion(l, i, j)
    requires Mask(wm[i - l.y][j - l.x]) == 255
    ensures var q := wm[i - l.y][j - l.x];
      Composite(frame, H, W, wm, l)[i][j] == Bgr(Fade(q.b), Fade(q.g), Fade(q.r))
  {
  }

  /** The current contents of a frame buffer. */
  function ImageOf(a: array2<Bgr>): (r: Image)
    reads a
    ensures IsGrid(r, a.Length0, a.Length1)
    ensures forall i, j :: 0 <= i < a.Length0 && 0 <= j < a.Length1 ==> r[i][j] == a[i, j]
  {
    seq(a.Length0, i requires 0 <= i < a.Length0 reads a =>
      seq(a.Length1, j requires 0 <= j < a.Length1 reads a => a[i, j]))
  }

  /**
   * Composite the watermark into the frame buffer in place: the region is
   * overwritten with its blend, and every other pixel keeps its value.
   */
  method CompositeInPlace(frame: array2<Bgr>, wm: Watermark, l: Layout)
    requires Placed(wm, l, frame.Length0, frame.Length1)
    modifies frame
    ensures ImageOf(frame) == Composite(old(ImageOf(frame)), frame.Length0, frame.Length1, wm, l)
  {
    ghost var before := ImageOf(frame);
    var r := 0;
    while r < l.size.h
      invariant 0 <= r <= l.size.h
      invariant forall i, j :: 0 <= i < frame.Length0 && 0 <= j < frame.Length1 ==>
        frame[i, j] == if i < l.y + r then PixelAfter(before[i][j], wm, l, i, j) else before[i][j]
    {
      BlendRow(frame, wm, l, r);
      r := r + 1;
    }
    GridEq(ImageOf(frame), Composite(before, frame.Length0, frame.Length1, wm, l), frame.Length0, frame.Length1);
  }

  /** Blend row r of the watermark into frame row y + r; no other row changes. */
  method BlendRow(frame: array2<Bgr>, wm: Watermark, l: Layout, r: nat)
    requires Placed(wm, l, frame.Length0, frame.Length1) && r < l.size.h
    modifies frame
    ensures forall i, j :: 0 <= i < frame.Length0 && 0 <= j < frame.Length1 ==>
      frame[i, j] == if i == l.y + r then PixelAfter(old(frame[i, j]), wm, l, i, j) else old(frame[i, j])
  {
    var c := 0;
    while c < l.size.w
      invariant 0 <= c <= l.size.w
      invariant forall i, j :: 0 <= i < frame.Length0 && 0 <= j < frame.Length1 ==>
        frame[i, j] ==
          if i == l.y + r && j < l.x + c then PixelAfter(old(frame[i, j]), wm, l, i, j) else old(frame[i, j])
    {
      frame[l.y + r, l.x + c] := BlendPixel(frame[l.y + r, l.x + c], wm[r][c]);
      c := c + 1;
    }
  }
}
