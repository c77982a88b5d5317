/**
 * The frame loop (main.py:94-132): read the next frame, composite the
 * watermark into it, write it to the sink, and stop at the end of the stream
 * or when the quit key was pressed after a frame was written.
 */
module Driver {
  import opened Results
  import opened Scaler
  import opened Pixels
  import opened Placement
  import opened Compositor

  /**
   * How many frames the loop writes from a source of n frames, counting from
   * frame i: it stops at the end of the stream, or right after writing a frame
   * whose key poll saw the quit key.
   */
  function WrittenFrom(n: nat, quit: nat -> bool, i: nat): nat
    requires i <= n
    decreases n - i
  {
    if i == n then n else if quit(i) then i + 1 else WrittenFrom(n, quit, i + 1)
  }

  function FramesWritten(n: nat, quit: nat -> bool): nat
  {
    WrittenFrom(n, quit, 0)
  }

  /**
   * The count is a prefix of the source: no quit before its last frame, and it
   * falls short of the source only when the quit key was seen on its last frame.
   */
  lemma {:induction false} WrittenFromSpec(n: nat, quit: nat -> bool, i: nat)
    requires i <= n
    ensures var k := WrittenFrom(n, quit, i);
      i <= k <= n &&
      (forall j :: i <= j < k - 1 ==> !quit(j)) &&
      (k == n || (i < k && quit(k - 1)))
    decreases n - i
  {
    if i < n && !quit(i) {
      WrittenFromSpec(n, quit, i + 1);
    }
  }

  /** Without a quit, every frame of the source is written: one out for each one in. */
  lemma AllFramesWithoutQuit(n: nat, quit: nat -> bool)
    requires forall j :: 0 <= j < n ==> !quit(j)
    ensures FramesWritten(n, quit) == n
  {
    WrittenFromSpec(n, quit, 0);
  }

  /** A quit seen after frame q stops the loop there, if it was not stopped before. */
  lemma QuitStopsAfterFrame(n: nat, quit: nat -> bool, q: nat)
    requires q < n && quit(q)
    ensures FramesWritten(n, quit) <= q + 1
  {
    WrittenFromSpec(n, quit, 0);
  }

  /**
   * Run the loop over a source of frames, all H x W, with the watermark and
   * layout fixed by the setup. The sink receives the composited frames in the
   * order they were read, and no others.
   */
  method ProcessVideo(source: seq<Image>, H: nat, W: nat, wm: Watermark, l: Layout, quit: nat -> bool)
    returns (sink: seq<Image>)
    requires forall k :: 0 <= k < |source| ==> IsGrid(source[k], H, W)
    requires Placed(wm, l, H, W)
    ensures |sink| == FramesWritten(|source|, quit) && |sink| <= |source|
    ensures forall k :: 0 <= k < |sink| ==> sink[k] == Composite(source[k], H, W, wm, l)
  {
    sink := [];
    var i := 0;
    while true
      invariant 0 <= i <= |source|
      invariant |sink| == i
      invariant WrittenFrom(|source|, quit, i) == FramesWritten(|source|, quit)
      invariant forall k :: 0 <= k < i ==> sink[k] == Composite(source[k], H, W, wm, l)
      decreases |source| - i
    {
      if i == |source| {
        break;
      }
      var next := source[i];
      var frame := new Bgr[H, W]((r, c) requires 0 <= r < H && 0 <= c < W => next[r][c]);
      assert ImageOf(frame) == next by {
        GridEq(ImageOf(frame), next, H, W);
      }
      CompositeInPlace(frame, wm, l);
      sink := sink + [ImageOf(frame)];
      if quit(i) {
        i := i + 1;
        assert i == FramesWritten(|source|, quit);
        break;
      }
      i := i + 1;
    }
  }

  /**
   * The whole run: set up once, then loop. `resample` stands for cv2.resize,
   * whose pixels are left unmodelled; all that is known is the size it
   * produces. A setup failure writes no frame.
   */
  method WatermarkVideo(source: seq<Image>, H: nat, W: nat, original: Dims,
                        resample: Dims -> Watermark, quit: nat -> bool)
    returns (r: Result<seq<Image>, SetupError>)
    requires forall k :: 0 <= k < |source| ==> IsGrid(source[k], H, W)
    requires forall d: Dims :: IsGrid(resample(d), d.h, d.w)
    ensures Setup(original, H, W).Err? ==> r == Err(Setup(original, H, W).error)
    ensures Setup(original, H, W).Ok? ==>
      var l := Setup(original, H, W).value;
      r.Ok? && |r.value| == FramesWritten(|source|, quit) && |r.value| <= |source| &&
      forall k :: 0 <= k < |r.value| ==> r.value[k] == Composite(source[k], H, W, resample(l.size), l)
  {
    match Setup(original, H, W)
    case Err(e) =>
      r := Err(e);
    case Ok(l) =>
      SetupContained(original, H, W);
      var sink := ProcessVideo(source, H, W, resample(l.size), l, quit);
      r := Ok(sink);
  }
}
