/**
 * The photostrip layout of `combineImages` (page.tsx lines 125-184): all the
 * frames stacked top to bottom on a background, with a fixed padding around
 * the strip, a fixed gap between photos and a rounded clip on each photo.
 */
module Photostrip {
  import opened Geometry
  import opened Camera

  /** A CSS colour string such as "#FFF7D1". */
  type Color = string

  const Padding := 20
  const Gap := 30
  const BorderRadius := 40

  /** Canvas size for frames of width w (line 146). */
  function CanvasWidth(w: int): int {
    w + Padding * 2
  }

  /** Canvas size for n frames of height h (line 147). */
  function CanvasHeight(n: int, h: int): int {
    n * (h + Gap) - Gap + Padding * 2
  }

  /** Left edge of every photo (line 160). */
  function SlotX(): int {
    Padding
  }

  /** Top edge of photo i (line 161). */
  function SlotY(i: nat, h: int): int {
    Padding + i * (h + Gap)
  }

  /** The closed box photo i is drawn into, for frames of size w by h. */
  function SlotBox(i: nat, w: int, h: int): Box {
    Box(SlotX(), SlotY(i, h), w, h)
  }

  /** Photo i + 1 starts exactly one gap below the bottom of photo i. */
  lemma SlotsAdjacent(i: nat, h: int)
    ensures SlotY(i + 1, h) == SlotY(i, h) + h + Gap
  {
    assert (i + 1) * (h + Gap) == i * (h + Gap) + (h + Gap);
  }

  /** Every later photo starts at least one gap below the bottom of an earlier one. */
  lemma {:induction false} SlotsOrdered(i: nat, j: nat, h: nat)
    requires i < j
    ensures SlotY(i, h) + h + Gap <= SlotY(j, h)
    decreases j
  {
    SlotsAdjacent(j - 1, h);
    if i < j - 1 {
      SlotsOrdered(i, j - 1, h);
    }
  }

  /** Distinct photos are drawn into boxes that share no point, not even an edge. */
  lemma SlotsDisjoint(i: nat, j: nat, w: nat, h: nat)
    requires i != j
    ensures Separated(SlotBox(i, w, h), SlotBox(j, w, h))
    ensures forall p :: !(SlotBox(i, w, h).Contains(p) && SlotBox(j, w, h).Contains(p))
  {
    if i < j {
      SlotsOrdered(i, j, h);
    } else {
      SlotsOrdered(j, i, h);
    }
  }

  /** With at least one photo, the bottom padding starts right below the last photo. */
  lemma CanvasHeightFitsLastSlot(n: nat, h: int)
    requires n >= 1
    ensures CanvasHeight(n, h) == SlotY(n - 1, h) + h + Padding
    ensures CanvasHeight(n, h) == n * (h + 30) + 10
  {
    assert n * (h + Gap) == (n - 1) * (h + Gap) + (h + Gap);
  }

  /**
   * Every photo of an n-photo strip lies inside the canvas with exactly the
   * padding to the left and right, and at least the padding above and below.
   */
  lemma SlotInsideCanvas(i: nat, n: nat, w: nat, h: nat)
    requires i < n
    ensures var b := SlotBox(i, w, h);
      b.x == Padding && b.x + b.w + Padding == CanvasWidth(w) && CanvasWidth(w) == w + 40
      && b.y >= Padding && b.y + b.h + Padding <= CanvasHeight(n, h)
  {
    CanvasHeightFitsLastSlot(n, h);
    if i < n - 1 {
      SlotsOrdered(i, n - 1, h);
    }
  }

  /**
   * Canvas rows are pixel rows: photo i covers the half-open band
   * [SlotY(i, h), SlotY(i, h) + h), unlike the closed boxes of Geometry,
   * which hold path coordinates.
   *
   * The photo band a canvas row falls into: row py belongs to photo k's band
   * when it is between the top of photo k and the top of photo k + 1.
   */
  function RowSlot(py: int, h: nat): (k: nat)
    requires py >= Padding
    ensures SlotY(k, h) <= py < SlotY(k, h) + h + Gap
    decreases py
  {
    if py < Padding + h + Gap then 0
    else
      var k := RowSlot(py - (h + Gap), h) + 1;
      SlotsAdjacent(k - 1, h);
      k
  }

  /**
   * The strip is tiled: every row of an n-photo canvas is in the top padding,
   * in the bottom padding, in the rows of exactly one photo, or in the gap
   * right after one photo and before the next.
   */
  lemma RowsTileCanvas(py: int, n: nat, h: nat)
    requires n >= 1 && 0 <= py < CanvasHeight(n, h)
    ensures py < Padding
      || py >= CanvasHeight(n, h) - Padding
      || (RowSlot(py, h) < n && SlotY(RowSlot(py, h), h) <= py < SlotY(RowSlot(py, h), h) + h)
      || (RowSlot(py, h) < n - 1 && SlotY(RowSlot(py, h), h) + h <= py < SlotY(RowSlot(py, h) + 1, h))
  {
    CanvasHeightFitsLastSlot(n, h);
    if py >= Padding && py < CanvasHeight(n, h) - Padding {
      var k := RowSlot(py, h);
      SlotsAdjacent(k, h);
      if k >= n {
        SlotsOrdered(n - 1, k, h);
      } else if k == n - 1 {
        assert py < SlotY(k, h) + h;
      }
    }
  }

  /** A row inside the rows of photo i belongs to that photo only. */
  lemma RowOwnerUnique(py: int, i: nat, h: nat)
    requires SlotY(i, h) <= py < SlotY(i, h) + h
    ensures RowSlot(py, h) == i
  {
    var k := RowSlot(py, h);
    if k < i {
      SlotsOrdered(k, i, h);
    } else if i < k {
      SlotsOrdered(i, k, h);
    }
  }

  /** One photo of the strip: the frame, the box it is drawn into and its clip path. */
  datatype Slot = Slot(frame: Frame, box: Box, clip: seq<PathCmd>)

  /** The composed strip: canvas size, background fill and the photos in drawing order. */
  datatype Strip = Strip(width: int, height: int, background: Color, slots: seq<Slot>)

  /**
   * How a call of `combineImages` ends: the strip is composed; some frame
   * never fires `onload`, so `Promise.all` never settles; or the list is
   * empty and reading `loadedImgs[0].width` throws.
   */
  datatype Outcome = Composed(strip: Strip) | NeverLoads | Throws

  /**
   * `combineImages(images, backgroundColor)`: every photo is drawn at the
   * size of the first one.
   */
  function Combine(images: seq<Frame>, background: Color): Outcome {
    if exists i :: 0 <= i < |images| && !Loads(images[i]) then NeverLoads
    else if |images| == 0 then Throws
    else
      var w, h := images[0].width, images[0].height;
      Composed(Strip(CanvasWidth(w), CanvasHeight(|images|, h), background,
        seq(|images|, i requires 0 <= i < |images| =>
          Slot(images[i], SlotBox(i, w, h), RoundedRectPath(SlotX(), SlotY(i, h), w, h, BorderRadius)))))
  }

  /** The three outcomes, each exactly characterised. */
  lemma CombineOutcomeIff(images: seq<Frame>, background: Color)
    ensures Combine(images, background).Composed? <==> |images| >= 1 && forall i :: 0 <= i < |images| ==> Loads(images[i])
    ensures Combine(images, background) == Throws <==> |images| == 0
    ensures Combine(images, background) == NeverLoads <==> exists i :: 0 <= i < |images| && !Loads(images[i])
  {
  }

  /**
   * A composed strip has the canvas size of the first frame, holds the frames
   * in their order, each in its own box inside the canvas with the padding as
   * margin, and no two boxes touch.
   */
  lemma ComposedStripLayout(images: seq<Frame>, background: Color)
    requires Combine(images, background).Composed?
    ensures var s, w, h := Combine(images, background).strip, images[0].width, images[0].height;
      s.width == w + 40 && s.height == |images| * (h + 30) + 10 && s.background == background
      && |s.slots| == |images|
      && (forall i :: 0 <= i < |images| ==> s.slots[i].frame == images[i])
      && (forall i :: 0 <= i < |images| ==>
            s.slots[i].box.w == w && s.slots[i].box.h == h
            && Padding <= s.slots[i].box.x && s.slots[i].box.x + w + Padding <= s.width
            && Padding <= s.slots[i].box.y && s.slots[i].box.y + h + Padding <= s.height)
      && (forall i, j :: 0 <= i < j < |images| ==> Separated(s.slots[i].box, s.slots[j].box))
  {
    var s, w, h := Combine(images, background).strip, images[0].width, images[0].height;
    CanvasHeightFitsLastSlot(|images|, h);
    forall i | 0 <= i < |images|
      ensures Padding <= s.slots[i].box.y && s.slots[i].box.y + h + Padding <= s.height
    {
      SlotInsideCanvas(i, |images|, w, h);
    }
    forall i, j | 0 <= i < j < |images|
      ensures Separated(s.slots[i].box, s.slots[j].box)
    {
      SlotsDisjoint(i, j, w, h);
    }
  }

  /**
   * Each clip path stays inside its photo's box, and so never reaches the
   * gap, the padding or another photo, exactly when the first frame is at
   * least as wide and as high as the corner radius.
   */
  lemma ClipsStayInSlots(images: seq<Frame>, background: Color)
    requires Combine(images, background).Composed?
    ensures var s, w, h := Combine(images, background).strip, images[0].width, images[0].height;
      (forall i :: 0 <= i < |images| ==> PathWithin(s.slots[i].clip, s.slots[i].box))
      <==> BorderRadius <= w && BorderRadius <= h
  {
    var s, w, h := Combine(images, background).strip, images[0].width, images[0].height;
    forall i | 0 <= i < |images|
      ensures PathWithin(s.slots[i].clip, s.slots[i].box) <==> BorderRadius <= w && BorderRadius <= h
    {
      assert s.slots[i].clip == RoundedRectPath(SlotX(), SlotY(i, h), w, h, BorderRadius);
      assert s.slots[i].box == Box(SlotX(), SlotY(i, h), w, h);
      PathWithinBoxIff(SlotX(), SlotY(i, h), w, h, BorderRadius);
    }
    if forall i :: 0 <= i < |images| ==> PathWithin(s.slots[i].clip, s.slots[i].box) {
      assert PathWithin(s.slots[0].clip, s.slots[0].box);
    }
  }

  /**
   * Recomposing with another colour changes only the background: the size,
   * the frames, their boxes and their clips stay as they were.
   */
  lemma RecolorChangesOnlyBackground(images: seq<Frame>, c1: Color, c2: Color)
    ensures Combine(images, c1).Composed? <==> Combine(images, c2).Composed?
    ensures Combine(images, c1).Composed? ==>
      Combine(images, c2).strip == Combine(images, c1).strip.(background := c2)
  {
  }

  /** A canvas point in the padding, all around the strip, is covered by no photo and shows the background. */
  lemma PaddingShowsBackground(images: seq<Frame>, background: Color, p: Point)
    requires Combine(images, background).Composed?
    requires var s := Combine(images, background).strip;
      p.x < Padding || p.y < Padding || p.x >= s.width - Padding + 1 || p.y >= s.height - Padding + 1
    ensures forall i :: 0 <= i < |images| ==> !Combine(images, background).strip.slots[i].box.Contains(p)
  {
    ComposedStripLayout(images, background);
  }

  /** Two 100 by 100 frames give a 140 by 270 strip with the photos at rows 20 and 150. */
  lemma TwoSquarePhotos(b1: Bitmap, b2: Bitmap, background: Color)
    ensures var r := Combine([Png(100, 100, b1), Png(100, 100, b2)], background);
      r.Composed? && r.strip.width == 140 && r.strip.height == 270
      && r.strip.slots[0].box == Box(20, 20, 100, 100) && r.strip.slots[1].box == Box(20, 150, 100, 100)
  {
    var images := [Png(100, 100, b1), Png(100, 100, b2)];
    CombineOutcomeIff(images, background);
  }
}
