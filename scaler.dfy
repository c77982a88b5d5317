/**
 * Watermark scaling (helper.py, resize_watermark).
 *
 * Only the dimensions of the watermark are modelled: cv2.resize interpolates
 * the pixels, and the compositor treats the resized pixels as arbitrary.
 */
module Scaler {
  import opened Results

  /** The shape of an image as numpy reports it: shape[0] is the height, shape[1] the width. */
  datatype Dims = Dims(h: nat, w: nat)

  /** cv2.resize raises when the target size it is given has a zero side. */
  datatype ScaleError = ZeroDimension(target: Dims)

  /** `h <= H/4 and w <= W/4` in real division, written over the integers. */
  predicate Fits(d: Dims, H: nat, W: nat)
  {
    4 * d.h <= H && 4 * d.w <= W
  }

  predicate Positive(d: Dims)
  {
    d.h > 0 && d.w > 0
  }

  /** One halving step: `int(w / 2)` and `int(h / 2)`, truncating, on both axes at once. */
  function Halve(d: Dims): (r: Dims)
    ensures 2 * r.h <= d.h < 2 * r.h + 2 && 2 * r.w <= d.w < 2 * r.w + 2
    ensures d.h + d.w > 0 ==> r.h + r.w < d.h + d.w
  {
    Dims(d.h / 2, d.w / 2)
  }

  function Pow2(k: nat): (p: nat)
    ensures p >= 1
  {
    if k == 0 then 1 else 2 * Pow2(k - 1)
  }

  /** The size after k halving steps. */
  function Shrink(d: Dims, k: nat): Dims
    decreases k
  {
    if k == 0 then d else Shrink(Halve(d), k - 1)
  }

  /**
   * resize_watermark on the dimensions. While the watermark is larger than a
   * quarter of the frame on either axis, both sides are halved and the rule is
   * applied again. A halving that reaches a zero side makes cv2.resize fail,
   * which is the error result here.
   */
  function ResizeWatermark(d: Dims, H: nat, W: nat): (r: Result<Dims, ScaleError>)
    ensures r.Ok? ==> Fits(r.value, H, W)
    ensures r.Ok? ==> r.value.h <= d.h && r.value.w <= d.w
    ensures r.Ok? && Positive(d) ==> Positive(r.value)
    ensures r.Err? ==> !Fits(d, H, W) && !Positive(r.error.target)
    decreases d.h + d.w
  {
    if Fits(d, H, W) then Ok(d)
    else
      var next := Halve(d);
      if !Positive(next) then Err(ZeroDimension(next))
      else ResizeWatermark(next, H, W)
  }

  /** Floor division twice is floor division by the product. */
  lemma DivDiv(a: nat, b: nat, c: nat)
    requires b > 0 && c > 0
    ensures a / b / c == a / (b * c)
  {
    var q, r1 := a / b, a % b;
    var q2, r2 := q / c, q % c;
    assert a == b * q + r1;
    assert q == c * q2 + r2;
    Distribute(b, c, q2, r2);
    assert a == (b * c) * q2 + (b * r2 + r1);
    MulLeMono(b, r2, c - 1);
    Distribute(b, c, 1, -1);
    assert b * (c - 1) == b * c - b;
    DivUnique(a, b * c, q2, b * r2 + r1);
  }

  lemma Distribute(b: int, c: int, x: int, y: int)
    ensures b * (c * x + y) == (b * c) * x + b * y
  {
  }

  lemma MulLeMono(b: nat, x: int, y: int)
    requires x <= y
    ensures b * x <= b * y
  {
    Distribute(b, 1, y - x, 0);
    MulSign(b, y - x);
  }

  lemma MulSign(b: nat, t: int)
    requires t >= 0
    ensures b * t >= 0
  {
  }

  lemma DivUnique(a: int, d: int, q: int, r: int)
    requires d > 0 && 0 <= r < d && a == d * q + r
    ensures a / d == q
  {
    var t := a / d - q;
    assert d * t == r - a % d;
    MulMono(d, t);
  }

  lemma MulMono(d: int, t: int)
    requires d > 0
    ensures t >= 1 ==> d * t >= d
    ensures t <= -1 ==> d * t <= -d
  {
  }

  /** The closed form of k halvings: both sides are divided by the same power of two, 2^k, truncating. */
  lemma {:induction false} ShrinkClosedForm(d: Dims, k: nat)
    ensures Shrink(d, k).h == d.h / Pow2(k) && Shrink(d, k).w == d.w / Pow2(k)
    decreases k
  {
    if k == 0 {
      assert d.h / 1 == d.h && d.w / 1 == d.w;
    } else {
      var p := Pow2(k - 1);
      assert Pow2(k) == 2 * p;
      ShrinkClosedForm(Halve(d), k - 1);
      assert Shrink(d, k).h == d.h / 2 / p && Shrink(d, k).w == d.w / 2 / p;
      DivDiv(d.h, 2, p);
      DivDiv(d.w, 2, p);
    }
  }

  /**
   * k halvings are the fewest that bring the watermark within bounds, and
   * none of the intermediate sizes has a zero side.
   */
  ghost predicate MinimalHalvings(d: Dims, H: nat, W: nat, k: nat)
  {
    Fits(Shrink(d, k), H, W) &&
    (forall j :: 0 <= j < k ==> !Fits(Shrink(d, j), H, W)) &&
    (forall j :: 0 < j <= k ==> Positive(Shrink(d, j)))
  }

  /** A watermark already within bounds is returned unchanged, after zero halvings. */
  lemma ResizeUnchangedWhenFits(d: Dims, H: nat, W: nat)
    requires Fits(d, H, W)
    ensures ResizeWatermark(d, H, W) == Ok(d)
    ensures MinimalHalvings(d, H, W, 0)
  {
  }

  /** A successful result is the input divided by 2^k on both axes, with k minimal. */
  lemma {:induction false} ResizeOkHalvings(d: Dims, H: nat, W: nat) returns (k: nat)
    requires ResizeWatermark(d, H, W).Ok?
    ensures ResizeWatermark(d, H, W).value == Shrink(d, k)
    ensures ResizeWatermark(d, H, W).value.h == d.h / Pow2(k)
    ensures ResizeWatermark(d, H, W).value.w == d.w / Pow2(k)
    ensures MinimalHalvings(d, H, W, k)
  {
    k := OkHalvings(d, H, W);
    ShrinkClosedForm(d, k);
  }

  lemma {:induction false} OkHalvings(d: Dims, H: nat, W: nat) returns (k: nat)
    requires ResizeWatermark(d, H, W).Ok?
    ensures ResizeWatermark(d, H, W).value == Shrink(d, k)
    ensures MinimalHalvings(d, H, W, k)
    decreases d.h + d.w
  {
    if Fits(d, H, W) {
      k := 0;
    } else {
      var next := Halve(d);
      var k' := OkHalvings(next, H, W);
      k := k' + 1;
      assert Shrink(d, k) == Shrink(next, k');
      forall j | 0 <= j < k ensures !Fits(Shrink(d, j), H, W) {
        if j > 0 { assert Shrink(d, j) == Shrink(next, j - 1); }
      }
      forall j | 0 < j <= k ensures Positive(Shrink(d, j)) {
        assert Shrink(d, j) == Shrink(next, j - 1);
      }
    }
  }

  /**
   * A failure happens after k halvings that all stayed too large, when the
   * next halving produces a zero side.
   */
  lemma {:induction false} ResizeErrHalvings(d: Dims, H: nat, W: nat) returns (k: nat)
    requires ResizeWatermark(d, H, W).Err?
    ensures forall j :: 0 <= j <= k ==> !Fits(Shrink(d, j), H, W)
    ensures forall j :: 0 < j <= k ==> Positive(Shrink(d, j))
    ensures ResizeWatermark(d, H, W).error == ZeroDimension(Shrink(d, k + 1))
    decreases d.h + d.w
  {
    var next := Halve(d);
    assert Shrink(d, 0) == d;
    if !Positive(next) {
      k := 0;
      assert Shrink(d, 1) == Shrink(next, 0) == next;
    } else {
      var k' := ResizeErrHalvings(next, H, W);
      k := k' + 1;
      assert Shrink(d, k + 1) == Shrink(next, k' + 1);
      forall j | 0 <= j <= k ensures !Fits(Shrink(d, j), H, W) {
        if j > 0 { assert Shrink(d, j) == Shrink(next, j - 1); }
      }
      forall j | 0 < j <= k ensures Positive(Shrink(d, j)) {
        assert Shrink(d, j) == Shrink(next, j - 1);
      }
    }
  }

  /** Conversely, the minimal number of halvings determines the result. */
  lemma {:induction false} ResizeFromHalvings(d: Dims, H: nat, W: nat, k: nat)
    requires MinimalHalvings(d, H, W, k)
    ensures ResizeWatermark(d, H, W) == Ok(Shrink(d, k))
    decreases k
  {
    if k > 0 {
      assert !Fits(Shrink(d, 0), H, W);
      var next := Halve(d);
      assert Shrink(d, 1) == Shrink(next, 0) == next;
      forall j | 0 <= j < k - 1 ensures !Fits(Shrink(next, j), H, W) {
        assert Shrink(d, j + 1) == Shrink(next, j);
      }
      forall j | 0 < j <= k - 1 ensures Positive(Shrink(next, j)) {
        assert Shrink(d, j + 1) == Shrink(next, j);
      }
      assert Shrink(d, k) == Shrink(next, k - 1);
      ResizeFromHalvings(next, H, W, k - 1);
    }
  }

  /** A 600-high, 800-wide watermark on a 480 x 640 frame is halved three times, to 75 x 100. */
  lemma ConvergenceExample()
    ensures ResizeWatermark(Dims(600, 800), 480, 640) == Ok(Dims(75, 100))
  {
  }

  /**
   * A 1-high, 1000-wide watermark on a 100 x 100 frame: only the width is too
   * large, but both sides are halved, and the height becomes 0.
   */
  lemma ZeroHeightExample()
    ensures ResizeWatermark(Dims(1, 1000), 100, 100) == Err(ZeroDimension(Dims(0, 500)))
  {
  }
}
