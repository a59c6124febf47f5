/** `Shape` (src/document/shapes/Shape.tsx) and its `ShapeStyle`
    (src/document/ShapeStyle.tsx): a list of shape points, open until
    closed, drawn with a style. */
module Shapes {
  import opened Wrappers
  import opened Vectors
  import MP = MagicPoints
  import SP = ShapePoints
  import CP = CanvasPaths

  const DefaultStrokeColor: string := "#000000"
  const DefaultFillColor: string := "#abcdef"

  datatype ShapeStyle = ShapeStyle(
    ref: Ref,
    id: Id,
    hasStroke: bool,
    hasFill: bool,
    strokeWidth: real,
    strokeColor: string,
    fillColor: string)

  /** `new ShapeStyle()`: stroked black one unit wide, not filled. */
  function NewShapeStyle(alloc: Fresh): (s: ShapeStyle)
    ensures s.ref == alloc.ref && s.id == alloc.id
    ensures s.hasStroke && !s.hasFill
    ensures s.strokeWidth == 1.0
    ensures s.strokeColor == DefaultStrokeColor && s.fillColor == DefaultFillColor
  {
    ShapeStyle(alloc.ref, alloc.id, true, false, 1.0, DefaultStrokeColor, DefaultFillColor)
  }

  datatype Shape = Shape(ref: Ref, id: Id, style: ShapeStyle, points: seq<SP.ShapePoint>, isClosed: bool)

  /** `new Shape()`: no points, open, a default style. */
  function NewShape(alloc: Fresh, styleAlloc: Fresh): (s: Shape)
    ensures s.ref == alloc.ref && s.id == alloc.id
    ensures s.points == [] && !s.isClosed
    ensures s.style.hasStroke && !s.style.hasFill && s.style.strokeWidth == 1.0
  {
    Shape(alloc.ref, alloc.id, NewShapeStyle(styleAlloc), [], false)
  }

  /** `addPoint(point)`: `points.push(point)`. */
  function AddPoint(s: Shape, point: SP.ShapePoint): (r: Shape)
    ensures |r.points| == |s.points| + 1 && r.points[|s.points|] == point
    ensures forall i :: 0 <= i < |s.points| ==> r.points[i] == s.points[i]
    ensures r.ref == s.ref && r.id == s.id && r.style == s.style && r.isClosed == s.isClosed
  {
    s.(points := s.points + [point])
  }

  /** `close()`. */
  function Close(s: Shape): (r: Shape)
    ensures r.isClosed
    ensures r.ref == s.ref && r.id == s.id && r.style == s.style && r.points == s.points
  {
    s.(isClosed := true)
  }

  /** Closing twice is closing once, and once closed a shape stays closed:
      neither adding a point nor closing reopens it. */
  lemma CloseIsIdempotent(s: Shape, point: SP.ShapePoint)
    ensures Close(Close(s)) == Close(s)
    ensures s.isClosed ==> Close(s) == s
    ensures s.isClosed ==> AddPoint(s, point).isClosed
  {
  }

  /** Every magic point evaluated at `basePoint` through `spline`. */
  function AtBasePoint(basePoint: Vector2, spline: MP.Spline): MP.MagicPoint -> Result<Coord> {
    m => MP.GetAtBasePoint(m, basePoint, spline)
  }

  /** `getCanvasPathAtBasePoint(basePoint)`: the shape's path with every
      magic point evaluated at the base point. The first ensures only
      names the delegation; what the path contains is stated by the
      contract of `CanvasPaths.ShapePath` and by the two lemmas below,
      which say how adding a point and closing the shape change it. */
  function CanvasPath(s: Shape, basePoint: Vector2, spline: MP.Spline): (r: Result<seq<CP.PathCommand>>)
    ensures r == CP.ShapePath(s.points, AtBasePoint(basePoint, spline), s.isClosed)
    ensures s.points == [] ==> (r.Ok? <==> !s.isClosed)
  {
    CP.ShapePath(s.points, AtBasePoint(basePoint, spline), s.isClosed)
  }

  /** Adding a point to an open shape adds one segment, to the new point, at
      the end of its path; the rest of the path is unchanged. */
  lemma {:induction false} AddPointExtendsPath(s: Shape, point: SP.ShapePoint, basePoint: Vector2, spline: MP.Spline)
    requires !s.isClosed && s.points != []
    requires CanvasPath(AddPoint(s, point), basePoint, spline).Ok?
    ensures CanvasPath(s, basePoint, spline).Ok?
    ensures CP.LineSegment(s.points[|s.points| - 1], point, AtBasePoint(basePoint, spline)).Ok?
    ensures CanvasPath(AddPoint(s, point), basePoint, spline).value ==
      CanvasPath(s, basePoint, spline).value + [CP.LineSegment(s.points[|s.points| - 1], point, AtBasePoint(basePoint, spline)).value]
  {
    assert AddPoint(s, point).points == s.points + [point];
    CP.OpenPathAppend(s.points, point, AtBasePoint(basePoint, spline));
  }

  /** Closing a shape with points adds the segment from the last point back
      to the first and then `closePath` to the end of its path. */
  lemma {:induction false} CloseAddsClosingSegment(s: Shape, basePoint: Vector2, spline: MP.Spline)
    requires !s.isClosed && s.points != []
    requires CanvasPath(Close(s), basePoint, spline).Ok?
    ensures CanvasPath(s, basePoint, spline).Ok?
    ensures CanvasPath(Close(s), basePoint, spline).value ==
      CanvasPath(s, basePoint, spline).value +
      [CP.LineSegment(s.points[|s.points| - 1], s.points[0], AtBasePoint(basePoint, spline)).value, CP.ClosePath]
  {
    var at := AtBasePoint(basePoint, spline);
    var closed := CanvasPath(Close(s), basePoint, spline).value;
    var open := CanvasPath(s, basePoint, spline).value;
    assert closed == open + [CP.LineSegment(s.points[|s.points| - 1], s.points[0], at).value, CP.ClosePath];
  }
}
