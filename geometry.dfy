/**
 * Integer plane geometry as the 2D canvas API sees it: points, the current
 * transformation matrix, path commands and axis-aligned boxes.
 */
module Geometry {

  datatype Point = Point(x: int, y: int)

  /** One call that changes the current transform of a 2D context. */
  datatype Step = Translate(tx: int, ty: int) | Scale(sx: int, sy: int)

  /**
   * The current transform of a 2D context, as the steps applied since it was
   * last reset; `setTransform(1, 0, 0, 1, 0, 0)` is the reset.
   */
  type Transform = seq<Step>

  const Identity: Transform := []

  function ApplyStep(s: Step, p: Point): Point {
    match s
    case Translate(tx, ty) => Point(p.x + tx, p.y + ty)
    case Scale(sx, sy) => Point(sx * p.x, sy * p.y)
  }

  /**
   * Where the transform sends a point of user space on the bitmap: each new
   * step post-multiplies the matrix, so the latest step acts on the point first.
   */
  function Apply(m: Transform, p: Point): Point
    decreases |m|
  {
    if m == [] then p else Apply(m[..|m| - 1], ApplyStep(m[|m| - 1], p))
  }

  /** `ctx.translate(tx, ty)` and `ctx.scale(sx, sy)`. */
  function Then(m: Transform, s: Step): (m': Transform)
    ensures forall p :: Apply(m', p) == Apply(m, ApplyStep(s, p))
  {
    var m' := m + [s];
    assert m'[..|m'| - 1] == m;
    m'
  }

  /** `moveTo`, `lineTo`, `quadraticCurveTo` and `closePath` of a canvas path. */
  datatype PathCmd =
    | MoveTo(to: Point)
    | LineTo(to: Point)
    | QuadTo(control: Point, to: Point)
    | ClosePath

  /** The points a command names: its end point and, for a curve, its control point. */
  function Points(cmd: PathCmd): seq<Point> {
    match cmd
    case MoveTo(p) => [p]
    case LineTo(p) => [p]
    case QuadTo(c, p) => [c, p]
    case ClosePath => []
  }

  /**
   * A closed axis-aligned box: left, top, width, height. Its points are
   * path coordinates (the corners of pixels), so both edges belong to it; a
   * path on the edge x + w stays inside. Pixel rows are the half-open bands
   * [y, y + h) instead, the convention Photostrip.RowsTileCanvas uses.
   */
  datatype Box = Box(x: int, y: int, w: int, h: int) {
    predicate Contains(p: Point) {
      x <= p.x <= x + w && y <= p.y <= y + h
    }
  }

  /** Two closed boxes that are apart on one axis. */
  predicate Separated(b1: Box, b2: Box) {
    b1.x + b1.w < b2.x || b2.x + b2.w < b1.x || b1.y + b1.h < b2.y || b2.y + b2.h < b1.y
  }

  lemma SeparatedBoxesShareNoPoint(b1: Box, b2: Box, p: Point)
    requires Separated(b1, b2)
    ensures !(b1.Contains(p) && b2.Contains(p))
  {
  }

  /** Every point and control point of every command lies in the box. */
  predicate PathWithin(path: seq<PathCmd>, b: Box) {
    forall k, j :: 0 <= k < |path| && 0 <= j < |Points(path[k])| ==> b.Contains(Points(path[k])[j])
  }

  /**
   * The clip path of one photo (page.tsx lines 164-174): a move to the start of
   * the top edge, then four straight edges, each followed by a quadratic corner
   * whose control point is the box's corner, and a close.
   */
  function RoundedRectPath(x: int, y: int, w: int, h: int, r: int): (path: seq<PathCmd>)
    ensures |path| == 10
  {
    [ MoveTo(Point(x + r, y)),
      LineTo(Point(x + w - r, y)),
      QuadTo(Point(x + w, y), Point(x + w, y + r)),
      LineTo(Point(x + w, y + h - r)),
      QuadTo(Point(x + w, y + h), Point(x + w - r, y + h)),
      LineTo(Point(x + r, y + h)),
      QuadTo(Point(x, y + h), Point(x, y + h - r)),
      LineTo(Point(x, y + r)),
      QuadTo(Point(x, y), Point(x + r, y)),
      ClosePath ]
  }

  /** The end point of a drawing command (the pen position after it). */
  function EndOf(cmd: PathCmd): Point
    requires !cmd.ClosePath?
  {
    cmd.to
  }

  predicate OnTop(p: Point, b: Box) { p.y == b.y && b.x <= p.x <= b.x + b.w }
  predicate OnRight(p: Point, b: Box) { p.x == b.x + b.w && b.y <= p.y <= b.y + b.h }
  predicate OnBottom(p: Point, b: Box) { p.y == b.y + b.h && b.x <= p.x <= b.x + b.w }
  predicate OnLeft(p: Point, b: Box) { p.x == b.x && b.y <= p.y <= b.y + b.h }

  /**
   * The path is closed at the point where it starts, (x + r, y), and has eight
   * segments between its move and its close: four lines, four curves.
   */
  lemma PathClosesWhereItStarts(x: int, y: int, w: int, h: int, r: int)
    ensures var path := RoundedRectPath(x, y, w, h, r);
      path[0] == MoveTo(Point(x + r, y)) && path[|path| - 1] == ClosePath
      && EndOf(path[|path| - 2]) == Point(x + r, y)
      && (forall k :: 1 <= k < |path| - 1 ==> (path[k].LineTo? <==> k % 2 == 1) && (path[k].QuadTo? <==> k % 2 == 0))
  {
  }

  /**
   * With a radius that fits (0 <= r, r <= w, r <= h) the straight segments run
   * along the top, right, bottom and left edges in that order and each
   * corner curve is steered by the corresponding corner of the box, clockwise
   * from the top right.
   */
  lemma PathVisitsEdgesClockwise(x: int, y: int, w: int, h: int, r: int)
    requires 0 <= r && r <= w && r <= h
    ensures var path, b := RoundedRectPath(x, y, w, h, r), Box(x, y, w, h);
      OnTop(EndOf(path[0]), b) && OnTop(EndOf(path[1]), b)
      && OnRight(EndOf(path[2]), b) && OnRight(EndOf(path[3]), b)
      && OnBottom(EndOf(path[4]), b) && OnBottom(EndOf(path[5]), b)
      && OnLeft(EndOf(path[6]), b) && OnLeft(EndOf(path[7]), b)
      && path[2].control == Point(x + w, y) && path[4].control == Point(x + w, y + h)
      && path[6].control == Point(x, y + h) && path[8].control == Point(x, y)
  {
  }

  /**
   * The path never leaves its box exactly when the radius is between 0 and
   * both side lengths; in particular whenever 0 <= 2r <= min(w, h).
   */
  lemma PathWithinBoxIff(x: int, y: int, w: int, h: int, r: int)
    requires 0 <= w && 0 <= h
    ensures PathWithin(RoundedRectPath(x, y, w, h, r), Box(x, y, w, h)) <==> 0 <= r && r <= w && r <= h
  {
    var path, b := RoundedRectPath(x, y, w, h, r), Box(x, y, w, h);
    if PathWithin(path, b) {
      assert b.Contains(Points(path[0])[0]);
      assert b.Contains(Points(path[1])[0]);
      assert b.Contains(Points(path[2])[1]);
    }
  }

  /**
   * The four straight segments are not reversed (the top one runs rightwards,
   * the right one downwards, and so on) exactly when 2r fits in both sides.
   */
  lemma StraightSegmentsForwardIff(x: int, y: int, w: int, h: int, r: int)
    ensures var path := RoundedRectPath(x, y, w, h, r);
      (EndOf(path[0]).x <= EndOf(path[1]).x && EndOf(path[2]).y <= EndOf(path[3]).y
       && EndOf(path[4]).x >= EndOf(path[5]).x && EndOf(path[6]).y >= EndOf(path[7]).y)
      <==> 2 * r <= w && 2 * r <= h
  {
  }
}
