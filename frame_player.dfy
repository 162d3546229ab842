/**
 * The playback controller of `frontend/components/frame-player.tsx`: the
 * cursor (`currentFrame`), the play flag, the frame rate, the marker tool,
 * the cursor updaters, the marker filter and the tagging of canvas clicks.
 * Timer scheduling and canvas drawing are not part of this model.
 */
module FramePlayer {
  import opened Common

  datatype MarkerType = Positive | Negative

  /** A point prompt; `x` and `y` are the normalized click coordinates. */
  datatype Marker = Marker(x: real, y: real, kind: MarkerType, frameIndex: int)

  /** JavaScript's `a % b`: the remainder takes the sign of the dividend. */
  function JsRem(a: int, b: int): (r: int)
    requires b > 0
    ensures a >= 0 ==> 0 <= r < b && r == a % b
    ensures a < 0 ==> -b < r <= 0
  {
    if a >= 0 then a % b else -((-a) % b)
  }

  /** The updater `(prev + 1) % images.length` shared by the playback tick and `nextFrame`. */
  function Advance(prev: int, n: int): (r: int)
    requires n > 0
    ensures prev >= -1 ==> 0 <= r < n
    ensures 0 <= prev < n ==> r == if prev == n - 1 then 0 else prev + 1
  {
    JsRem(prev + 1, n)
  }

  /** The `prevFrame` updater `(prev - 1 + images.length) % images.length`. */
  function Retreat(prev: int, n: int): (r: int)
    requires n > 0
    ensures prev >= 1 - n ==> 0 <= r < n
    ensures 0 <= prev < n ==> r == if prev == 0 then n - 1 else prev - 1
  {
    JsRem(prev - 1 + n, n)
  }

  /** The `step(dir)` updater: past either end the cursor wraps to the other end. */
  function Step(prev: int, dir: int, n: int): (r: int)
    ensures n > 0 ==> 0 <= r < n
    ensures prev + dir < 0 ==> r == n - 1
    ensures 0 <= prev + dir && n <= prev + dir ==> r == 0
    ensures 0 <= prev + dir < n ==> r == prev + dir
  {
    var next := prev + dir;
    if next < 0 then n - 1
    else if next >= n then 0
    else next
  }

  /** `nextFrame` and `prevFrame` undo each other on every frame index. */
  lemma AdvanceRetreatInverse(c: int, n: int)
    requires n > 0 && 0 <= c < n
    ensures Retreat(Advance(c, n), n) == c
    ensures Advance(Retreat(c, n), n) == c
  {
  }

  /** A single step forward or back is exactly the cyclic next/previous frame. */
  lemma StepByOneIsCyclic(c: int, n: int)
    requires n > 0 && 0 <= c < n
    ensures Step(c, 1, n) == Advance(c, n)
    ensures Step(c, -1, n) == Retreat(c, n)
  {
  }

  /**
   * A cursor left at or past the end by a shorter image list: stepping
   * forward lands on frame 0; stepping back lands on the last frame only
   * from exactly `n`, and on frame 0 from any cursor beyond it.
   */
  lemma StepFromStaleCursor(prev: int, n: int)
    requires n > 0 && prev >= n
    ensures Step(prev, 1, n) == 0
    ensures prev == n ==> Step(prev, -1, n) == n - 1
    ensures prev > n ==> Step(prev, -1, n) == 0
  {
  }

  /** The cursor after `k` ticks from `c`. */
  function AdvanceTimes(c: int, n: int, k: nat): int
    requires n > 0
  {
    if k == 0 then c else Advance(AdvanceTimes(c, n, k - 1), n)
  }

  /** Up to `n` ticks from a frame index `c` land on `c + k`, wrapped at most once. */
  lemma {:induction false} AdvanceTimesFormula(c: int, n: int, k: nat)
    requires n > 0 && 0 <= c < n && k <= n
    ensures AdvanceTimes(c, n, k) == if c + k < n then c + k else c + k - n
  {
    if k > 0 {
      AdvanceTimesFormula(c, n, k - 1);
    }
  }

  /** Ticking `n` times from any frame comes back to it: playback is a cycle of length `n`. */
  lemma PlaybackIsCyclic(c: int, n: int)
    requires n > 0 && 0 <= c < n
    ensures AdvanceTimes(c, n, n) == c
  {
    AdvanceTimesFormula(c, n, n);
  }

  /** The `markers.filter(m => m.frameIndex === currentFrame)` of the draw effect. */
  function MarkersAt(markers: seq<Marker>, frame: int): (r: seq<Marker>)
    ensures forall k :: 0 <= k < |r| ==> r[k].frameIndex == frame && r[k] in markers
    ensures forall m :: m in markers && m.frameIndex == frame ==> m in r
    ensures |r| <= |markers|
  {
    if markers == [] then []
    else
      var rest := MarkersAt(markers[1..], frame);
      if markers[0].frameIndex == frame then [markers[0]] + rest else rest
  }

  /** The filter keeps the markers' order: filtering a concatenation concatenates the filtered parts. */
  lemma {:induction false} MarkersAtDistributes(a: seq<Marker>, b: seq<Marker>, frame: int)
    ensures MarkersAt(a + b, frame) == MarkersAt(a, frame) + MarkersAt(b, frame)
  {
    if a == [] {
      assert a + b == b;
    } else {
      assert (a + b)[1..] == a[1..] + b;
      MarkersAtDistributes(a[1..], b, frame);
    }
  }

  /**
   * `handleCanvasClick`: with a handler and a mounted canvas, one marker
   * tagged with the active tool and the current frame; otherwise nothing.
   */
  function ClickMarker(hasHandler: bool, hasCanvas: bool, x: real, y: real, tool: MarkerType, frame: int)
    : (r: Option<Marker>)
    ensures r.Some? <==> hasHandler && hasCanvas
    ensures r.Some? ==> r.value.kind == tool && r.value.frameIndex == frame && r.value.x == x && r.value.y == y
  {
    if !hasHandler || !hasCanvas then None else Some(Marker(x, y, tool, frame))
  }

  /** A click emits a marker that the filter then draws on the frame it was made on. */
  lemma ClickedMarkerIsDrawn(markers: seq<Marker>, x: real, y: real, tool: MarkerType, frame: int)
    ensures var m := ClickMarker(true, true, x, y, tool, frame).value;
            MarkersAt(markers + [m], frame) == MarkersAt(markers, frame) + [m]
  {
    var m := ClickMarker(true, true, x, y, tool, frame).value;
    MarkersAtDistributes(markers, [m], frame);
    assert [m][1..] == [];
  }

  class Player {
    /** `images.length` */
    var frameCount: nat
    var currentFrame: int
    var isPlaying: bool
    var fps: int
    var activeTool: MarkerType

    constructor (frameCount: nat, initialFps: int)
      ensures this.frameCount == frameCount && fps == initialFps
      ensures currentFrame == 0 && !isPlaying && activeTool == Positive
    {
      this.frameCount := frameCount;
      fps := initialFps;
      currentFrame := 0;
      isPlaying := false;
      activeTool := Positive;
    }

    /** One interval callback; the interval exists only while playing with at least one frame. */
    method Tick()
      requires isPlaying && frameCount > 0
      modifies this`currentFrame
      ensures currentFrame == Advance(old(currentFrame), frameCount)
    {
      currentFrame := Advance(currentFrame, frameCount);
    }

    method TogglePlay()
      modifies this`isPlaying
      ensures isPlaying == !old(isPlaying)
    {
      isPlaying := !isPlaying;
    }

    /** `step(dir)`: pauses, then moves by `dir` with wrap-around at both ends. */
    method StepBy(dir: int)
      modifies this`isPlaying, this`currentFrame
      ensures !isPlaying
      ensures currentFrame == Step(old(currentFrame), dir, frameCount)
    {
      isPlaying := false;
      currentFrame := Step(currentFrame, dir, frameCount);
    }

    /** `nextFrame`; with no frames JavaScript's `% 0` yields NaN, which this model excludes. */
    method NextFrame()
      requires frameCount > 0
      modifies this`currentFrame
      ensures currentFrame == Advance(old(currentFrame), frameCount)
    {
      currentFrame := Advance(currentFrame, frameCount);
    }

    /** `prevFrame`; with no frames JavaScript's `% 0` yields NaN, which this model excludes. */
    method PrevFrame()
      requires frameCount > 0
      modifies this`currentFrame
      ensures currentFrame == Retreat(old(currentFrame), frameCount)
    {
      currentFrame := Retreat(currentFrame, frameCount);
    }

    method FirstFrame()
      modifies this`currentFrame
      ensures currentFrame == 0
    {
      currentFrame := 0;
    }

    /** `lastFrame`: with no frames this is -1, as in the source. */
    method LastFrame()
      modifies this`currentFrame
      ensures currentFrame == frameCount - 1
    {
      currentFrame := frameCount - 1;
    }

    /** The frame slider's `onValueChange`: pause, then jump to the slider's value. */
    method OnSliderChange(value: int)
      modifies this`isPlaying, this`currentFrame
      ensures !isPlaying && currentFrame == value
    {
      isPlaying := false;
      currentFrame := value;
    }

    method SetActiveTool(tool: MarkerType)
      modifies this`activeTool
      ensures activeTool == tool
    {
      activeTool := tool;
    }

    /** The rate slider's `onValueChange`; the cursor is left where it is. */
    method SetFps(value: int)
      modifies this`fps
      ensures fps == value
    {
      fps := value;
    }

    /** A new image list; the cursor is not reset, so it may now lie past the last frame. */
    method SetFrameCount(count: nat)
      modifies this`frameCount
      ensures frameCount == count
    {
      frameCount := count;
    }

    /** The markers drawn over the current frame. */
    function CurrentMarkers(markers: seq<Marker>): (r: seq<Marker>)
      reads this
      ensures forall m :: m in r <==> m in markers && m.frameIndex == currentFrame
    {
      MarkersAt(markers, currentFrame)
    }

    method HandleCanvasClick(hasHandler: bool, hasCanvas: bool, x: real, y: real) returns (r: Option<Marker>)
      ensures r == ClickMarker(hasHandler, hasCanvas, x, y, activeTool, currentFrame)
    {
      r := ClickMarker(hasHandler, hasCanvas, x, y, activeTool, currentFrame);
    }
  }

  /** Two toggles leave the play flag as it was; stepping forward from the last frame wraps and pauses. */
  method ControllerScenario() returns (playing: bool, frame: int)
    ensures !playing && frame == 0
  {
    var p := new Player(3, 10);
    p.TogglePlay();
    p.TogglePlay();
    playing := p.isPlaying;
    p.LastFrame();
    p.TogglePlay();
    p.StepBy(1);
    frame := p.currentFrame;
    playing := playing || p.isPlaying;
  }
}
