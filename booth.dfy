/**
 * The photobooth page state (page.tsx lines 11-22) and the operations that
 * change it: a capture run (`startPhotoBooth`, lines 65-94), the
 * recomposition effect (lines 52-56) and the two settings the user can change
 * between runs (lines 245 and 268).
 *
 * Every control that starts a run or changes a setting is disabled while
 * `isCapturing` holds (lines 225, 249, 269), so the calls below never
 * interleave: each method runs to completion, and its waits are no-ops.
 */
module Booth {
  import opened Wrappers
  import opened Camera
  import opened Photostrip
  import opened Sequencing

  /** Seconds per countdown (line 67). */
  const CountdownDuration := 1
  /** Initial number of photos (line 15). */
  const DefaultPhotoCount := 2
  /** Initial background, light yellow (line 17). */
  const DefaultColor: Color := "#FFF7D1"

  class PhotoBooth {
    var countdown: Option<int>
    var capturedImages: seq<Frame>
    var finalImage: Option<Strip>
    var numPhotos: int
    var bgColor: Color
    var isCapturing: bool
    var showPhotos: bool
    /** `videoRef.current` and `canvasRef.current`, with the video's dimensions. */
    const video: Option<Video>
    const canvas: Canvas?
    /** Every observable step taken so far. */
    ghost var trace: seq<Event>
    /** The colour the shown strip was composed with. */
    ghost var composedColor: Color

    /**
     * Between calls no countdown is shown, and a strip, once there, is the
     * composition of the current captured list (in the colour it was
     * composed with, which lags behind bgColor while the list is incomplete).
     */
    ghost predicate Valid()
      reads this
    {
      (!isCapturing ==> countdown == None)
      && (finalImage.Some? ==> Combine(capturedImages, composedColor) == Composed(finalImage.value))
    }

    /** The initial state of the page; the mount run of the effect sees 0 != 2 frames and does nothing. */
    constructor (video: Option<Video>, canvas: Canvas?)
      ensures Valid() && this.video == video && this.canvas == canvas
      ensures countdown == None && capturedImages == [] && finalImage == None
      ensures numPhotos == DefaultPhotoCount && bgColor == DefaultColor
      ensures !isCapturing && !showPhotos && trace == []
    {
      this.video, this.canvas := video, canvas;
      countdown, capturedImages, finalImage := None, [], None;
      numPhotos, bgColor := DefaultPhotoCount, DefaultColor;
      isCapturing, showPhotos := false, false;
      trace, composedColor := [], DefaultColor;
    }

    /** Whether `capturePhoto` finds the canvas and a 2D context. */
    function CanvasReady(): bool {
      canvas != null && canvas.has2d
    }

    /**
     * The effect of lines 52-56, run after a change of bgColor or of the
     * captured list: it recomposes exactly when the list has numPhotos frames,
     * with the current colour and the list as it is; the strip is replaced
     * only if the composition completes.
     */
    method RecomposeEffect()
      requires Valid()
      modifies this`finalImage, this`trace, this`composedColor
      ensures Valid()
      ensures trace == old(trace) + Recomposition(|capturedImages| == numPhotos, capturedImages, bgColor)
      ensures finalImage == if |capturedImages| == numPhotos && Combine(capturedImages, bgColor).Composed?
        then Some(Combine(capturedImages, bgColor).strip) else old(finalImage)
    {
      if |capturedImages| == numPhotos {
        trace := trace + [Recompose(capturedImages, bgColor)];
        var outcome := Combine(capturedImages, bgColor);
        if outcome.Composed? {
          finalImage := Some(outcome.strip);
          composedColor := bgColor;
        }
      }
    }

    /** `setCountdown(value)` (lines 75 and 85), followed by a one-second wait that changes nothing observable. */
    method ShowCount(value: int)
      modifies this`countdown, this`trace
      ensures countdown == Some(value) && trace == old(trace) + [Tick(value)]
    {
      countdown := Some(value);
      trace := trace + [Tick(value)];
    }

    /** A countdown loop and its `setCountdown(null)` (lines 74-78 and 84-88). */
    method RunCountdown(d: int)
      modifies this`countdown, this`trace
      ensures countdown == None && trace == old(trace) + Countdown(d)
    {
      var i := d;
      while i >= 1
        invariant (d >= 1 ==> 0 <= i <= d) && (d < 1 ==> i == d)
        invariant trace == old(trace) + Ticks(d)[..d - i]
      {
        ShowCount(i);
        assert Ticks(d)[..d - i + 1] == Ticks(d)[..d - i] + [Tick(i)];
        i := i - 1;
      }
      countdown := None;
      trace := trace + [ClearCountdown];
      assert Ticks(d)[..d - i] == Ticks(d);
    }

    /**
     * The capture loop of lines 80-90: snapshot i, then a countdown unless it
     * was the last one; the frames are collected in a local list.
     */
    method TakeShots(countdownDuration: int, scene: nat -> Scene) returns (newImages: seq<Frame>)
      modifies this`countdown, this`trace, canvas
      ensures newImages == seq(Iterations(numPhotos), k requires 0 <= k => Snapshot(video, CanvasReady(), scene(k)))
      ensures trace == old(trace) + ShotsAsWritten(Iterations(numPhotos), numPhotos, countdownDuration)
      ensures countdown == if numPhotos >= 2 then None else old(countdown)
    {
      newImages := [];
      var i := 0;
      while i < numPhotos
        invariant 0 <= i <= Iterations(numPhotos)
        invariant newImages == seq(i, k requires 0 <= k => Snapshot(video, CanvasReady(), scene(k)))
        invariant trace == old(trace) + ShotsAsWritten(i, numPhotos, countdownDuration)
        invariant countdown == if i >= 1 && numPhotos >= 2 then None else old(countdown)
      {
        var dataUrl := TakeShot(i, countdownDuration, scene(i));
        assert newImages + [dataUrl] == seq(i + 1, k requires 0 <= k => Snapshot(video, CanvasReady(), scene(k)));
        newImages := newImages + [dataUrl];
        i := i + 1;
      }
    }

    /** One iteration of the capture loop (lines 81-89): snapshot i, then a countdown unless it was the last. */
    method TakeShot(i: nat, countdownDuration: int, scene: Scene) returns (dataUrl: Frame)
      modifies this`countdown, this`trace, canvas
      ensures dataUrl == Snapshot(video, CanvasReady(), scene)
      ensures trace == old(trace) + [Capture(i)] + (if i < numPhotos - 1 then Countdown(countdownDuration) else [])
      ensures countdown == if i < numPhotos - 1 then None else old(countdown)
    {
      dataUrl := CapturePhoto(video, canvas, scene);
      trace := trace + [Capture(i)];
      if i < numPhotos - 1 {
        RunCountdown(countdownDuration);
      }
    }

    /**
     * A capture run, started by the button while no run is active. It
     * resets the session, counts down, takes numPhotos snapshots (the
     * video shows scene(i) at the i-th) with a countdown between two of them,
     * publishes the list of frames and clears isCapturing; the effect then
     * composes the strip. countdownDuration is 1 on the page.
     *
     * The updates up to the first value of the first countdown are committed
     * together at its wait, where the effect sees the cleared list; so the
     * first iteration of that countdown is unrolled here.
     */
    method StartPhotoBooth(countdownDuration: int, scene: nat -> Scene)
      requires Valid() && !isCapturing && countdownDuration >= 1
      modifies this, canvas
      ensures Valid()
      ensures numPhotos == old(numPhotos) && bgColor == old(bgColor)
      ensures capturedImages == seq(Iterations(numPhotos), i requires 0 <= i => Snapshot(video, CanvasReady(), scene(i)))
      ensures trace == old(trace) + SessionTrace(numPhotos, countdownDuration, bgColor, capturedImages)
      ensures finalImage == if numPhotos >= 0 && Combine(capturedImages, bgColor).Composed?
        then Some(Combine(capturedImages, bgColor).strip) else None
      ensures !isCapturing && countdown == None && !showPhotos
    {
      ghost var t0 := trace;
      ResetSession();
      ShowCount(countdownDuration);
      RecomposeEffect();
      ghost var t1 := trace;
      RunCountdown(countdownDuration - 1);
      ghost var t2 := trace;
      var newImages := TakeShots(countdownDuration, scene);
      ghost var t3 := trace;
      PublishFrames(newImages);
      RecomposeEffect();
      SessionTraceOfSteps(t0, t1, t2, t3, trace, numPhotos, countdownDuration, bgColor, newImages);
    }

    /** Lines 66-72: hide the photos, disable the controls, clear the list and the strip. */
    method ResetSession()
      requires Valid()
      modifies this`showPhotos, this`isCapturing, this`capturedImages, this`finalImage, this`trace
      ensures Valid() && !showPhotos && isCapturing && capturedImages == [] && finalImage == None
      ensures trace == old(trace) + [Reset]
    {
      showPhotos := false;
      isCapturing := true;
      capturedImages := [];
      finalImage := None;
      trace := trace + [Reset];
    }

    /** Lines 92-93: publish the collected list and enable the controls. */
    method PublishFrames(newImages: seq<Frame>)
      requires Valid() && countdown == None && finalImage == None
      modifies this`capturedImages, this`isCapturing, this`trace
      ensures Valid() && capturedImages == newImages && !isCapturing
      ensures trace == old(trace) + [Publish(|newImages|)]
    {
      capturedImages := newImages;
      isCapturing := false;
      trace := trace + [Publish(|newImages|)];
    }

    /** A colour button (line 268): a different colour reruns the effect, the same colour changes nothing. */
    method SetBgColor(c: Color)
      requires Valid() && !isCapturing
      modifies this`bgColor, this`finalImage, this`trace, this`composedColor
      ensures Valid() && bgColor == c
      ensures old(bgColor) == c ==> trace == old(trace) && finalImage == old(finalImage)
      ensures old(bgColor) != c ==>
        trace == old(trace) + Recomposition(|capturedImages| == numPhotos, capturedImages, c)
        && finalImage == if |capturedImages| == numPhotos && Combine(capturedImages, c).Composed?
             then Some(Combine(capturedImages, c).strip) else old(finalImage)
    {
      if c != bgColor {
        bgColor := c;
        RecomposeEffect();
      }
    }

    /** The photo-count input (line 245); numPhotos is not a dependency of the effect, so nothing is recomposed. */
    method SetNumPhotos(n: int)
      requires Valid() && !isCapturing
      modifies this`numPhotos
      ensures Valid() && numPhotos == n
    {
      numPhotos := n;
    }
  }

  /** The run's trace put together from the trace of each of its steps. */
  lemma SessionTraceOfSteps(t0: seq<Event>, t1: seq<Event>, t2: seq<Event>, t3: seq<Event>, t4: seq<Event>,
                            n: int, d: int, color: Color, frames: seq<Frame>)
    requires |frames| == Iterations(n) && d >= 1
    requires t1 == t0 + [Reset] + [Tick(d)] + Recomposition(0 == n, [], color)
    requires t2 == t1 + Countdown(d - 1)
    requires t3 == t2 + ShotsAsWritten(Iterations(n), n, d)
    requires t4 == t3 + [Publish(|frames|)] + Recomposition(|frames| == n, frames, color)
    ensures t4 == t0 + SessionTrace(n, d, color, frames)
  {
  }
}
