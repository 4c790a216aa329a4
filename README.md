# Photobooth capture run and photostrip layout, in Dafny

This project models the logic of the photobooth page `src/app/page.tsx`.
The page shows a mirrored live webcam picture. A button starts a capture
run: a countdown, then `numPhotos` snapshots with a countdown between two
of them. The frames are then stacked into one photostrip image on a chosen
background colour, each photo clipped to a rounded rectangle.

The model has five modules:

- `Geometry` (geometry.dfy): points, a canvas transform as the list of
  `translate`/`scale` steps applied to it, boxes, and the rounded-rectangle
  clip path of `combineImages` as its sequence of path commands.
- `Camera` (camera.dfy): the hidden canvas as a class whose width, height,
  transform and bitmap change in place, and `capturePhoto` with its guard
  branches, mirroring and PNG encoding (frames stay opaque values).
- `Photostrip` (strip.dfy): the layout arithmetic of `combineImages` (padding
  20, gap 30, corner radius 40). Also `Combine`, which gives the outcome of one
  call: a composed strip, a `Promise.all` that never settles because some
  frame never loads, or an exception on an empty list.
- `Sequencing` (sequencing.dfy): the events a capture run emits, the exact
  trace of one run as a function of `numPhotos`, the countdown duration, the
  colour and the frames, and the lemmas about that trace.
- `Booth` (booth.dfy): the page state as a class (`countdown`,
  `capturedImages`, `finalImage`, `numPhotos`, `bgColor`, `isCapturing`,
  `showPhotos`, plus a ghost event trace). The run `startPhotoBooth`, the
  recomposition effect and the two settings are methods that update those
  fields; the countdown and the capture loop are `while` loops. Each method
  is proved against the `Sequencing` and `Photostrip` functions.

Modelling decisions:

- Every control that starts a run or changes a setting is disabled while
  `isCapturing` holds (lines 225, 249, 269). So the methods run one at a
  time to completion. The one-second waits are steps with no observable
  effect.
- `combineImages` is asynchronous. Here its result lands at once, inside the
  effect that called it.
- `numPhotos` is an `int`. The number input's `parseInt` may give 0, a
  negative number or NaN. A count below 1 makes the capture loop run zero
  times, and NaN behaves like a negative count.
- State updates made between two `await`s are committed together, and the
  effect of lines 52-56 runs after that commit when `bgColor` or
  `capturedImages` changed. The reset (lines 66-72) and the first countdown
  value (line 75) come before the first `await` (line 76). So the effect
  runs once the countdown shows its first value, sees the cleared list, and
  calls `combineImages([])` when `numPhotos` is 0. The first iteration of
  that countdown is unrolled in `Booth.PhotoBooth.StartPhotoBooth` for this.
  The publication at line 92 reruns the effect once more. Between the two,
  `capturedImages` and `bgColor` do not change, so the other waits run no
  effect. `setBgColor` with the colour already chosen does not rerun it.
- Setting a canvas's width or height resets its transform and clears it, as
  the HTML canvas does. That is why the mirror transform of lines 112-113
  is applied after the resize.
- The page itself fixes the countdown length to 1 (line 67). It is a
  parameter of the run, which must be at least 1. The trace lemmas hold
  for every such duration. With a duration below 1 the first wait would
  not exist, and React would commit the reset differently.
- The camera is a parameter: `scene(i)` is what the video shows at the
  i-th snapshot. The dimensions of the video element are fixed for the run.
- For two 100 by 100 frames the code gives a 140 by 270 strip
  (`Photostrip.TwoSquarePhotos`): 2 * (100 + 30) - 30 + 40 = 270.

## Model

| member | source | states |
|---|---|---|
| Geometry.Then | src/app/page.tsx:112-113 | appending a transform step makes the new transform apply that step to a point first, then the old transform |
| Geometry.SeparatedBoxesShareNoPoint | src/app/page.tsx:159-161 | two boxes separated vertically or horizontally contain no common point |
| Geometry.RoundedRectPath | src/app/page.tsx:164-174 | the clip path is one move, eight segments and a close (ten commands) |
| Geometry.PathClosesWhereItStarts | src/app/page.tsx:165-174 | the path starts at (x + r, y), its last segment ends there, then it closes; its segments alternate line, curve, line, curve |
| Geometry.PathVisitsEdgesClockwise | src/app/page.tsx:165-173 | for 0 <= r <= w, h the segment end points lie on the top, right, bottom and left edges in that order, and each corner curve's control point is that corner of the box |
| Geometry.PathWithinBoxIff | src/app/page.tsx:165-173 | every point and control point of the path lies in [x, x + w] x [y, y + h] if and only if 0 <= r <= w and r <= h (so in particular when 0 <= 2r <= min(w, h)) |
| Geometry.StraightSegmentsForwardIff | src/app/page.tsx:165-172 | the four straight segments run clockwise and none is reversed if and only if 2r <= w and 2r <= h |
| Camera.Canvas.constructor | src/app/page.tsx:359 | a new canvas is 300 by 150, blank, identity transform |
| Camera.Canvas.SetWidth | src/app/page.tsx:109 | setting the width clears the canvas and resets the transform, keeping the height |
| Camera.Canvas.SetHeight | src/app/page.tsx:110 | setting the height clears the canvas and resets the transform, keeping the width |
| Camera.Canvas.Translate | src/app/page.tsx:112 | the transform becomes the old one followed by the translation |
| Camera.Canvas.Scale | src/app/page.tsx:113 | the transform becomes the old one followed by the scaling |
| Camera.Canvas.DrawVideo | src/app/page.tsx:114 | the bitmap shows the video picture placed through the current transform |
| Camera.Canvas.SetTransform | src/app/page.tsx:115 | the transform becomes the given one |
| Camera.Canvas.ToDataUrl | src/app/page.tsx:117 | the encoded frame is a PNG exactly when both sides are non-zero, and then has the canvas's size and bitmap; a canvas with a zero side encodes to `data:,` (NoPixels) |
| Camera.Mirror | src/app/page.tsx:112-113 | the transform of translate(w, 0) then scale(-1, 1); Camera.MirrorFlipsColumns and Camera.MirrorKeepsRectangle state what it does |
| Camera.Snapshot | src/app/page.tsx:96-120 | the frame `capturePhoto` resolves to; Camera.SnapshotLoadsIff and Camera.SnapshotIsMirrored characterise it, and Camera.CapturePhoto is proved to return it |
| Camera.MirrorFlipsColumns | src/app/page.tsx:112-113 | translate by w, then scale x by -1, sends (x, y) to (w - x, y) |
| Camera.MirrorKeepsRectangle | src/app/page.tsx:112-114 | the mirror maps the drawn rectangle [0, w] x [0, h] onto itself, and mirroring twice gives back every point |
| Camera.SnapshotLoadsIff | src/app/page.tsx:98-118 | a snapshot is the empty string exactly when video, canvas or context is missing; it is a loadable PNG exactly when they are all present and the video has a non-zero size; the PNG has the video's size and shows the current picture |
| Camera.SnapshotIsMirrored | src/app/page.tsx:109-117 | a loadable snapshot shows the picture mirrored left to right across its width |
| Camera.PaintMirrored | src/app/page.tsx:109-115 | after the steps the canvas has the video's size, the identity transform, and the picture drawn through the mirror |
| Camera.CapturePhoto | src/app/page.tsx:96-120 | the result is the snapshot of the video, canvas and context; a guard branch resolves to the empty string and leaves the canvas untouched; otherwise the canvas ends with the video's size and the mirrored picture |
| Photostrip.CanvasWidth | src/app/page.tsx:146 | the strip width for frames of width w; Photostrip.SlotInsideCanvas and Photostrip.ComposedStripLayout state that it is w + 40 with one padding each side of every photo |
| Photostrip.CanvasHeight | src/app/page.tsx:147 | the strip height for n frames of height h; Photostrip.CanvasHeightFitsLastSlot and Photostrip.RowsTileCanvas state that it ends one padding below the last photo and is tiled by paddings, photos and gaps |
| Photostrip.SlotX | src/app/page.tsx:160 | the left edge of every photo; Photostrip.SlotInsideCanvas states it is the padding |
| Photostrip.SlotY | src/app/page.tsx:161 | the top edge of photo i; Photostrip.SlotsAdjacent, Photostrip.SlotsOrdered and Photostrip.SlotsDisjoint state the spacing and separation |
| Photostrip.Combine | src/app/page.tsx:125-184 | the outcome of `combineImages`; Photostrip.CombineOutcomeIff, Photostrip.ComposedStripLayout, Photostrip.ClipsStayInSlots and Photostrip.RecolorChangesOnlyBackground characterise it |
| Photostrip.SlotsAdjacent | src/app/page.tsx:161 | slot i + 1 starts exactly one gap (30) below the bottom of slot i |
| Photostrip.SlotsOrdered | src/app/page.tsx:161 | every later slot starts at least one gap below the bottom of an earlier one |
| Photostrip.SlotsDisjoint | src/app/page.tsx:159-161 | distinct slots are separated and share no point |
| Photostrip.CanvasHeightFitsLastSlot | src/app/page.tsx:147 | for n >= 1 the canvas height is the bottom of the last slot plus the padding, which is n * (h + 30) + 10 |
| Photostrip.SlotInsideCanvas | src/app/page.tsx:146-147 | every slot i < n lies inside the canvas with exactly the padding on the left and right and at least the padding above and below; the canvas width is w + 40 |
| Photostrip.RowSlot | src/app/page.tsx:161 | for a row at or below the top padding, the returned slot's top is at or above the row and the next slot's top is below it |
| Photostrip.RowsTileCanvas | src/app/page.tsx:146-147 | every row of the canvas is in the top padding, in the bottom padding, in the rows of one slot, or in the gap between one slot and the next |
| Photostrip.RowOwnerUnique | src/app/page.tsx:161 | a row inside slot i's rows belongs to slot i and no other |
| Photostrip.CombineOutcomeIff | src/app/page.tsx:125-147 | the strip is composed exactly when the list is non-empty and every frame loads; it throws exactly on the empty list; it never settles exactly when some frame does not load |
| Photostrip.ComposedStripLayout | src/app/page.tsx:140-161 | a composed strip is (w + 40) by (n * (h + 30) + 10) for the first frame's size, has the given background, holds the frames in order, each in a w by h box inside the padding, and no two boxes touch |
| Photostrip.ClipsStayInSlots | src/app/page.tsx:142-175 | every photo's clip stays inside its own box (so never reaches the gap, the padding or another photo) exactly when the first frame is at least 40 wide and 40 high |
| Photostrip.RecolorChangesOnlyBackground | src/app/page.tsx:156-157 | composing with another colour gives the same strip with only the background changed |
| Photostrip.PaddingShowsBackground | src/app/page.tsx:156-161 | a point in the padding on any side is covered by no photo |
| Photostrip.TwoSquarePhotos | src/app/page.tsx:146-147 | two 100 by 100 frames give a 140 by 270 strip with the photos at rows 20 and 150 |
| Sequencing.CountOfAppend | src/app/page.tsx:74-90 | the count of a kind of event in a concatenation is the sum of the counts |
| Sequencing.ShutterAppend | src/app/page.tsx:80-82 | the captures of a concatenation are those of the first part followed by those of the second |
| Sequencing.Countdown | src/app/page.tsx:74-78 | the events of one countdown loop and its clear; Sequencing.CountdownCounts and Sequencing.CountdownUnrolled state its contents, and Booth.PhotoBooth.RunCountdown is proved to emit it |
| Sequencing.CountdownUnrolled | src/app/page.tsx:74-76 | a countdown from d >= 1 is the value d followed by a countdown from d - 1 |
| Sequencing.ShotsAsWritten | src/app/page.tsx:80-90 | the events of the capture loop as written; Sequencing.LoopShapeIsShots relates it to rounds of countdown then capture, and Booth.PhotoBooth.TakeShots is proved to emit it |
| Sequencing.Body | src/app/page.tsx:74-90 | the events of the two loops without the effect; Sequencing.BodyIsShots, Sequencing.BodyWithoutShots and Sequencing.BodyEvents characterise it |
| Sequencing.Opening | src/app/page.tsx:52-78 | the first countdown with the effect of the committed reset after its first value; Sequencing.DuringIsBodyWithEffect and Sequencing.SessionWithoutShots state its place |
| Sequencing.During | src/app/page.tsx:52-90 | the events between the reset and the publication; Sequencing.DuringIsBodyWithEffect and Sequencing.DuringEvents characterise them |
| Sequencing.SessionTrace | src/app/page.tsx:52-94 | the whole trace of one run; the Sequencing.Session lemmas below state its properties, and Booth.PhotoBooth.StartPhotoBooth is proved to emit it |
| Sequencing.DuringIsBodyWithEffect | src/app/page.tsx:52-90 | between the reset and the publication a run emits the loops' events, with the reset-time effect right after the first countdown value |
| Sequencing.DuringEvents | src/app/page.tsx:52-90 | between the reset and the publication there are only ticks showing 1..d, clears, captures and, for numPhotos = 0, the recomposition of the empty list |
| Sequencing.SessionShutter | src/app/page.tsx:80-94 | the captures of a run are exactly those of its loops |
| Sequencing.CountdownCounts | src/app/page.tsx:74-78 | a countdown of d seconds is max(d, 0) ticks followed by the clear: it holds max(d, 0) ticks and no capture |
| Sequencing.BodyEvents | src/app/page.tsx:74-90 | the loops of a run emit only ticks showing a value in 1..d, clears and captures |
| Sequencing.LoopShapeIsShots | src/app/page.tsx:74-90 | the first countdown followed by the capture loop as written equals, after k shots, k rounds of countdown then capture, with one more countdown pending unless the last shot was taken |
| Sequencing.ShotsLength | src/app/page.tsx:80-90 | k rounds hold k * (max(d, 0) + 2) events |
| Sequencing.ShotsTickCount | src/app/page.tsx:83-88 | k rounds hold k * max(d, 0) ticks |
| Sequencing.ShotsShutter | src/app/page.tsx:80-82 | k rounds capture shots 0, 1, ..., k - 1 in that order |
| Sequencing.CaptureFollowsCountdown | src/app/page.tsx:74-89 | every capture comes right after a full countdown, which comes right after the previous capture (or the start) |
| Sequencing.BodyIsShots | src/app/page.tsx:74-90 | for numPhotos >= 1 the loops emit exactly numPhotos rounds of countdown then capture, with no countdown after the last capture |
| Sequencing.BodyWithoutShots | src/app/page.tsx:74-80 | for numPhotos <= 0 only the first countdown runs |
| Sequencing.SessionShape | src/app/page.tsx:52-94 | a run with numPhotos >= 1 emits the reset, numPhotos rounds of countdown then capture, the publication of n frames and one recomposition with the frames and the colour |
| Sequencing.SessionWithoutShots | src/app/page.tsx:52-94 | a run with numPhotos <= 0 emits the reset, the first value d, the recomposition of the empty list if numPhotos is 0, the rest of the countdown, the publication of the empty list, and again the recomposition if numPhotos is 0 |
| Sequencing.SessionTickCount | src/app/page.tsx:74-89 | a run shows numPhotos * d countdown values for numPhotos >= 1 (and d for a count below 1) |
| Sequencing.SessionCapturesInOrder | src/app/page.tsx:80-82 | a run captures exactly max(numPhotos, 0) times, with shot indices 0, 1, ... in order |
| Sequencing.SessionCountdownBeforeEachCapture | src/app/page.tsx:74-89 | right before every capture there is a full countdown, and right before it the reset (first shot) or the previous capture |
| Sequencing.SessionEndsAtLastCapture | src/app/page.tsx:83-93 | the last capture is followed only by the publication and the recomposition, with no countdown after the last shot |
| Sequencing.SessionPublishesOnce | src/app/page.tsx:69-92 | the reset comes first, and a run resets and publishes exactly once each |
| Sequencing.SessionPublicationIsFinal | src/app/page.tsx:92-93 | the publication carries all max(numPhotos, 0) frames and only the effect runs after it, so no partial list is published |
| Sequencing.SessionRecompositions | src/app/page.tsx:52-92 | for a duration of at least 1, combineImages is called twice in a run for numPhotos = 0, once for numPhotos > 0, never for a negative count |
| Sequencing.SessionRecomposesCompleteList | src/app/page.tsx:52-56 | every recomposition in a run uses the current colour and exactly the numPhotos frames just published |
| Booth.PhotoBooth.constructor | src/app/page.tsx:11-22 | the initial state: no countdown, no frames, no strip, 2 photos, colour #FFF7D1, not capturing, empty trace |
| Booth.PhotoBooth.RecomposeEffect | src/app/page.tsx:52-56 | the effect recomposes exactly when the list has numPhotos frames, with the current colour and the list as is; the strip is replaced only by a completed composition |
| Booth.PhotoBooth.ShowCount | src/app/page.tsx:75-76 | the countdown shows the value and the trace records it |
| Booth.PhotoBooth.RunCountdown | src/app/page.tsx:74-78 | the loop shows d, d - 1, ..., 1 and then clears the countdown |
| Booth.PhotoBooth.TakeShots | src/app/page.tsx:80-90 | the local list holds the snapshots 0 ... numPhotos - 1 in order, and the trace grows by the capture loop's events |
| Booth.PhotoBooth.TakeShot | src/app/page.tsx:81-89 | one iteration returns the snapshot of the current picture, records its capture and runs a countdown unless it was the last shot |
| Booth.PhotoBooth.ResetSession | src/app/page.tsx:66-72 | photos hidden, capturing on, list cleared, strip cleared |
| Booth.PhotoBooth.PublishFrames | src/app/page.tsx:92-93 | the list becomes the collected frames and capturing is off |
| Booth.PhotoBooth.StartPhotoBooth | src/app/page.tsx:65-94 | from an idle state and for a duration of at least 1, the run leaves numPhotos and the colour unchanged; the list holds the numPhotos snapshots in order; the trace grows by exactly the session trace; the strip is the composition of the list if that completes, otherwise none; the run ends idle with no countdown and the photos hidden |
| Booth.PhotoBooth.SetBgColor | src/app/page.tsx:268 | a different colour reruns the effect with the new colour; the same colour changes nothing |
| Booth.PhotoBooth.SetNumPhotos | src/app/page.tsx:245 | only the count changes, and nothing is recomposed |

## Left out

- Camera acquisition (`getUserMedia`, `srcObject`, `play`, lines 37-49) is browser media input and output. The video element is a parameter of the page (`video` with its dimensions), and is either there or not.
- Pixels are not modelled. A frame is an opaque value recording its size and which picture was drawn through which transform. PNG encoding and image decoding via `new Image`/`onload` are reduced to "a PNG with non-zero size loads; the empty string and `data:,` never do".
- The flash (lines 105-107) and the slide-in effect (lines 58-62) are visual only.
- The one-second `setTimeout` waits (lines 76 and 86) are steps with no effect. Real time is not modelled.
- The scroll listener, the "go up" button and all JSX markup are UI and are not modelled. So are the show-photos toggle (lines 288-290) and the button components in `src/app/components/`.
- Rasterising the quadratic curves is out of scope. The model keeps only the path's points and control points.
- The `!ctx` guard of the strip canvas (line 154) is not modelled: a freshly created canvas is taken to always give a 2D context.
- The fill, `drawImage` and `toDataURL` of the strip canvas (lines 156-182) are modelled as the `Strip` value: its size, background and the photo, box and clip of every slot.
- Booth.PhotoBooth.RecomposeEffect: the asynchronous `combineImages` is modelled as finishing inside the effect. A composition that lands after a later state change is not modelled.
- Booth.PhotoBooth.StartPhotoBooth: the model assumes the video element and canvas stay the same during the run, and that the video's dimensions do not change. The pictures the video shows may differ from shot to shot.
- Booth.PhotoBooth.StartPhotoBooth: the countdown duration must be at least 1. The page fixes it to 1 (line 67). A duration below 1 gives a run with no wait before the first capture, so React would commit the reset together with later updates. That ordering is not modelled.
