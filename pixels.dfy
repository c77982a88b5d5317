/**
 * Per-pixel arithmetic of the compositing step (main.py:108-119): the mask
 * taken from the watermark, its bitwise inverse, the two masked parts and
 * their saturating weighted sum.
 */
module Pixels {
  /** One 8-bit channel value (numpy uint8). */
  newtype Byte = x: int | 0 <= x < 256

  /** A frame pixel. OpenCV stores the channels in blue, green, red order. */
  datatype Bgr = Bgr(b: Byte, g: Byte, r: Byte)

  /** A watermark pixel as read with IMREAD_UNCHANGED: three colour channels and an alpha channel. */
  datatype Bgra = Bgra(b: Byte, g: Byte, r: Byte, a: Byte)

  const Black := Bgr(0, 0, 0)

  /** watermark_beta = 0.12, in hundredths. */
  const BetaPercent: nat := 12

  /** The colour channels, `watermark[:, :, :3]`. */
  function Colour(p: Bgra): Bgr
  {
    Bgr(p.b, p.g, p.r)
  }

  /**
   * The mask value, `watermark[:, :, 1]`: channel index 1, which is the green
   * colour channel, not the alpha channel (index 3).
   */
  function Mask(p: Bgra): Byte
  {
    p.g
  }

  /** cv2.bitwise_not on one uint8 value: every one of the 8 bits flips, so r + m is 0xFF. */
  function BitwiseNot(m: Byte): (r: Byte)
    ensures r as int + m as int == 0xFF
    ensures (r == 0) == (m == 255)
  {
    255 - m
  }

  /**
   * cv2.bitwise_and(p, p, mask=mask) at one pixel: `p & p` is `p`, kept where
   * the mask is nonzero; the freshly allocated destination is zero elsewhere.
   */
  function KeepWhere(p: Bgr, mask: Byte): Bgr
  {
    if mask != 0 then p else Black
  }

  function Dist(b: Byte, v: int): nat
  {
    if v <= b as int then b as int - v else v - b as int
  }

  /** saturate_cast<uchar>: the 8-bit value nearest to v, so a sum above 255 clips instead of wrapping. */
  function Saturate(v: int): (r: Byte)
    ensures forall b: Byte :: Dist(r, v) <= Dist(b, v)
    ensures 0 <= v < 256 ==> r as int == v
  {
    if v < 0 then 0 else if v > 255 then 255 else v as Byte
  }

  /** beta * v, rounded to the nearest integer. */
  function Fade(v: Byte): (r: Byte)
    ensures 100 * (r as int) - 50 <= BetaPercent * (v as int) < 100 * (r as int) + 50
    ensures r <= v && r <= 31
  {
    ((BetaPercent * (v as int) + 50) / 100) as Byte
  }

  /**
   * The exact value 12v / 100 is never within 0.02 of a half-integer: 12v mod 100
   * is a multiple of 4, so it is at most 48 or at least 52. The error of the
   * float32 computation is far below that margin, so it rounds to the same
   * integer as the exact value.
   */
  lemma NoRoundingTie(v: Byte)
    ensures var m := (BetaPercent * (v as int)) % 100; m <= 48 || m >= 52
  {
  }

  /**
   * One channel of cv2.addWeighted(src1, 1, src2, beta, 0): the rounded value
   * of src1 * 1 + src2 * beta + 0, saturated.
   */
  function AddWeightedChannel(s1: Byte, s2: Byte): (r: Byte)
    ensures r as int == if s1 as int + Fade(s2) as int > 255 then 255 else s1 as int + Fade(s2) as int
    ensures r >= s1 && r >= Fade(s2)
  {
    Saturate((100 * (s1 as int) + BetaPercent * (s2 as int) + 50) / 100)
  }

  function AddWeighted(p: Bgr, q: Bgr): Bgr
  {
    Bgr(AddWeightedChannel(p.b, q.b), AddWeightedChannel(p.g, q.g), AddWeightedChannel(p.r, q.r))
  }

  /**
   * The compositing of one ROI pixel f with the watermark pixel over it:
   * the frame part is kept where bitwise_not(mask) != 0, the watermark colour
   * where mask != 0, and the two are added with weights 1 and beta.
   */
  function BlendPixel(f: Bgr, wm: Bgra): (r: Bgr)
    ensures Mask(wm) == 0 ==> r == f
    ensures Mask(wm) == 255 ==> r == Bgr(Fade(wm.b), Fade(wm.g), Fade(wm.r))
    ensures 0 < Mask(wm) < 255 ==>
      r == Bgr(Saturate(f.b as int + Fade(wm.b) as int),
               Saturate(f.g as int + Fade(wm.g) as int),
               Saturate(f.r as int + Fade(wm.r) as int))
  {
    var mask := Mask(wm);
    var framePart := KeepWhere(f, BitwiseNot(mask));
    var watermarkPart := KeepWhere(Colour(wm), mask);
    AddWeighted(framePart, watermarkPart)
  }

  /** Where the mask lets both parts through, no channel gets darker: the sum saturates, it never wraps. */
  lemma BlendNeverDarkens(f: Bgr, wm: Bgra)
    requires Mask(wm) != 255
    ensures BlendPixel(f, wm).b >= f.b && BlendPixel(f, wm).g >= f.g && BlendPixel(f, wm).r >= f.r
  {
  }

  /** The alpha channel of the watermark has no influence on the result. */
  lemma AlphaIgnored(f: Bgr, wm: Bgra, a: Byte)
    ensures BlendPixel(f, wm) == BlendPixel(f, wm.(a := a))
  {
  }
}
