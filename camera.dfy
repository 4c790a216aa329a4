/**
 * One snapshot from the live video (`capturePhoto`, page.tsx lines 96-120):
 * the hidden canvas is resized to the video, mirrored, painted with the
 * current video picture and encoded as a PNG data URL.
 */
module Camera {
  import opened Wrappers
  import opened Geometry

  /** The picture the video shows at the moment of one capture; its pixels are not modelled. */
  datatype Scene = Scene(instant: nat)

  /** What a canvas bitmap holds: nothing yet, or one video picture drawn through a transform. */
  datatype Bitmap = Cleared | Painted(scene: Scene, placement: Transform)

  /**
   * A captured frame, i.e. the data URL `capturePhoto` resolves to:
   * `Missing` is the empty string of the guard branches, `NoPixels` the
   * `data:,` URL a canvas without pixels encodes to, `Png` a real image.
   */
  datatype Frame = Missing | NoPixels | Png(width: nat, height: nat, picture: Bitmap)

  /** `videoWidth` and `videoHeight` of the playing video element (0 until the stream delivers). */
  datatype Video = Video(videoWidth: nat, videoHeight: nat)

  /** Only a real image fires `onload` when it is decoded; the other two never do. */
  predicate Loads(f: Frame) {
    f.Png?
  }

  /** The hidden `<canvas>` of the page and the state of its 2D context. */
  class Canvas {
    var width: nat
    var height: nat
    var transform: Transform
    var bitmap: Bitmap
    /** Whether `getContext("2d")` yields a context. */
    const has2d: bool

    /** A fresh canvas is 300 by 150 pixels, blank, with the identity transform. */
    constructor (has2d: bool)
      ensures this.has2d == has2d
      ensures width == 300 && height == 150 && transform == Identity && bitmap == Cleared
    {
      this.has2d := has2d;
      width, height := 300, 150;
      transform, bitmap := Identity, Cleared;
    }

    /** Setting `canvas.width` clears the bitmap and resets the context state. */
    method SetWidth(w: nat)
      modifies this
      ensures width == w && height == old(height) && transform == Identity && bitmap == Cleared
    {
      width := w;
      transform, bitmap := Identity, Cleared;
    }

    /** Setting `canvas.height` clears the bitmap and resets the context state. */
    method SetHeight(h: nat)
      modifies this
      ensures height == h && width == old(width) && transform == Identity && bitmap == Cleared
    {
      height := h;
      transform, bitmap := Identity, Cleared;
    }

    method Translate(tx: int, ty: int)
      modifies this`transform
      ensures transform == Then(old(transform), Geometry.Translate(tx, ty))
    {
      transform := Then(transform, Geometry.Translate(tx, ty));
    }

    method Scale(sx: int, sy: int)
      modifies this`transform
      ensures transform == Then(old(transform), Geometry.Scale(sx, sy))
    {
      transform := Then(transform, Geometry.Scale(sx, sy));
    }

    method SetTransform(m: Transform)
      modifies this`transform
      ensures transform == m
    {
      transform := m;
    }

    /** `drawImage(video, 0, 0, width, height)`: the whole bitmap shows the picture through the transform. */
    method DrawVideo(scene: Scene)
      modifies this`bitmap
      ensures bitmap == Painted(scene, transform)
    {
      bitmap := Painted(scene, transform);
    }

    /** `toDataURL("image/png")`: a canvas with no pixels encodes to `data:,`. */
    function ToDataUrl(): (f: Frame)
      reads this
      ensures f.Png? <==> width > 0 && height > 0
      ensures width == 0 || height == 0 ==> f == NoPixels
      ensures f.Png? ==> f.width == width && f.height == height && f.picture == bitmap
    {
      if width == 0 || height == 0 then NoPixels else Png(width, height, bitmap)
    }
  }

  /** The transform of page.tsx lines 112-113: translate by the width, then scale x by -1. */
  function Mirror(w: int): Transform {
    Then(Then(Identity, Geometry.Translate(w, 0)), Geometry.Scale(-1, 1))
  }

  /** The mirror sends column x of the picture to column w - x and keeps rows. */
  lemma MirrorFlipsColumns(w: int, p: Point)
    ensures Apply(Mirror(w), p) == Point(w - p.x, p.y)
  {
  }

  /** The mirror maps the drawn rectangle [0, w] x [0, h] onto itself, and mirroring twice changes nothing. */
  lemma MirrorKeepsRectangle(w: int, h: int, p: Point)
    ensures Box(0, 0, w, h).Contains(Apply(Mirror(w), p)) <==> Box(0, 0, w, h).Contains(p)
    ensures Apply(Mirror(w), Apply(Mirror(w), p)) == p
  {
    MirrorFlipsColumns(w, p);
    MirrorFlipsColumns(w, Apply(Mirror(w), p));
  }

  /**
   * The frame `capturePhoto` resolves to, given the video element, whether the
   * hidden canvas and its 2D context exist, and what the video shows.
   */
  function Snapshot(video: Option<Video>, canvasReady: bool, scene: Scene): Frame {
    if video.None? || !canvasReady then Missing
    else if video.value.videoWidth == 0 || video.value.videoHeight == 0 then NoPixels
    else Png(video.value.videoWidth, video.value.videoHeight, Painted(scene, Mirror(video.value.videoWidth)))
  }

  /**
   * A snapshot is a loadable image exactly when video, canvas and context are
   * there and the stream has a non-empty size; the image then has the video's
   * size and shows the picture mirrored left to right.
   */
  lemma SnapshotLoadsIff(video: Option<Video>, canvasReady: bool, scene: Scene)
    ensures var f := Snapshot(video, canvasReady, scene);
      (Loads(f) <==> video.Some? && canvasReady && video.value.videoWidth > 0 && video.value.videoHeight > 0)
      && (f == Missing <==> video.None? || !canvasReady)
      && (Loads(f) ==> f.width == video.value.videoWidth && f.height == video.value.videoHeight
                       && f.picture.Painted? && f.picture.scene == scene)
  {
  }

  /** A loadable snapshot shows the video picture mirrored left to right across its own width. */
  lemma SnapshotIsMirrored(video: Option<Video>, canvasReady: bool, scene: Scene, p: Point)
    requires Loads(Snapshot(video, canvasReady, scene))
    ensures var f := Snapshot(video, canvasReady, scene);
      f.picture.Painted? && Apply(f.picture.placement, p) == Point(f.width - p.x, p.y)
  {
    MirrorFlipsColumns(video.value.videoWidth, p);
  }

  /**
   * Lines 109-115 of `capturePhoto`: resize the canvas to the video, mirror
   * the context, draw the picture and restore the identity transform.
   */
  method PaintMirrored(canvas: Canvas, w: nat, h: nat, scene: Scene)
    modifies canvas
    ensures canvas.width == w && canvas.height == h && canvas.transform == Identity
    ensures canvas.bitmap == Painted(scene, Mirror(w))
  {
    canvas.SetWidth(w);
    canvas.SetHeight(h);
    canvas.Translate(canvas.width, 0);
    canvas.Scale(-1, 1);
    canvas.DrawVideo(scene);
    canvas.SetTransform(Identity);
  }

  /**
   * `capturePhoto`: without a video element, a canvas or a 2D context it
   * yields the empty string and touches nothing; otherwise it resizes the
   * canvas to the video, draws the picture mirrored, restores the identity
   * transform and encodes the canvas. The flash is a visual effect and is
   * not modelled.
   */
  method CapturePhoto(video: Option<Video>, canvas: Canvas?, scene: Scene) returns (f: Frame)
    modifies canvas
    ensures f == Snapshot(video, canvas != null && canvas.has2d, scene)
    ensures f == Missing ==> canvas == null || unchanged(canvas)
    ensures f != Missing ==>
      (canvas != null && canvas.width == video.value.videoWidth
       && canvas.height == video.value.videoHeight && canvas.transform == Identity
       && canvas.bitmap == Painted(scene, Mirror(video.value.videoWidth)))
  {
    if video.None? || canvas == null {
      return Missing;
    }
    if !canvas.has2d {
      return Missing;
    }
    PaintMirrored(canvas, video.value.videoWidth, video.value.videoHeight, scene);
    f := canvas.ToDataUrl();
  }
}
