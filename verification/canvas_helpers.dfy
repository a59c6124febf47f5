/** `getShapePath` (src/lib/CanvasHelpers.tsx): the canvas path drawn for a
    shape's points at one base point. `at` evaluates a magic point at the
    base point (`MagicPoints.GetAtBasePoint` with the base point and spline
    fixed) and can crash; the path is the list of commands issued on the
    `Path2D` object. */
module CanvasPaths {
  import opened Wrappers
  import opened Vectors
  import MP = MagicPoints
  import opened ShapePoints
  import Arrays

  /** The `Path2D` commands `getShapePath` issues. */
  datatype PathCommand =
    | MoveTo(to: Coord)
    | LineTo(to: Coord)
    | QuadraticCurveTo(cp: Coord, to: Coord)
    | BezierCurveTo(cp1: Coord, cp2: Coord, to: Coord)
    | ClosePath

  /** Where a drawing command ends; `closePath` has no end point of its own. */
  function EndPoint(c: PathCommand): Option<Coord> {
    match c
    case MoveTo(to) => Some(to)
    case LineTo(to) => Some(to)
    case QuadraticCurveTo(_, to) => Some(to)
    case BezierCurveTo(_, _, to) => Some(to)
    case ClosePath => None
  }

  /** A global control point as drawing sees it: reading it can fail, it
      can be `null`, and evaluating it at the base point can fail. */
  type Control = Result<Option<Result<Coord>>>

  /** Reading the control point and, when there is one, evaluating it
      both succeed. */
  predicate Resolves(c: Control) {
    c.Ok? && (c.value.Some? ==> c.value.value.Ok?)
  }

  /** The evaluated control point, `None` for `null`. */
  function ControlAt(c: Control): (r: Option<Coord>)
    requires Resolves(c)
    ensures r.Some? <==> c.value.Some?
    ensures r.Some? ==> c.value.value == Ok(r.value)
  {
    if c.value.Some? then Some(c.value.value.value) else None
  }

  /** What drawing needs from one point: its origin evaluated at the base
      point, and its global leading and following control points. */
  datatype Vertex = Vertex(origin: Result<Coord>, leading: Control, following: Control)

  /** A global control point with its evaluation at the base point. */
  function AtBase(g: Result<Option<MP.MagicPoint>>, at: MP.MagicPoint -> Result<Coord>): (r: Control)
    ensures r.Ok? <==> g.Ok?
    ensures r.Ok? ==> (r.value.Some? <==> g.value.Some?)
    ensures r.Ok? && r.value.Some? ==> r.value.value == at(g.value.value)
  {
    match g
    case Fail(e) => Fail(e)
    case Ok(None) => Ok(None)
    case Ok(Some(m)) => Ok(Some(at(m)))
  }

  function VertexOf(p: ShapePoint, at: MP.MagicPoint -> Result<Coord>): (v: Vertex)
    ensures v.origin == at(p.originPoint)
    ensures v.leading == AtBase(LeadingGlobal(p), at)
    ensures v.following == AtBase(FollowingGlobal(p), at)
  {
    Vertex(at(p.originPoint), AtBase(LeadingGlobal(p), at), AtBase(FollowingGlobal(p), at))
  }

  /** `addLineSegment` on evaluated points, in the source's order: this
      point's origin, the previous point's leading control point, this
      point's following control point, then the control points that exist.
      A cubic curve when both exist, a quadratic curve through the one that
      exists, a line when neither does; it ends at this point's origin. */
  function Segment(prev: Vertex, v: Vertex): (r: Result<PathCommand>)
    ensures r.Ok? <==> v.origin.Ok? && Resolves(prev.leading) && Resolves(v.following)
    ensures r.Ok? ==> EndPoint(r.value) == Some(v.origin.value)
    ensures r.Ok? ==> (r.value.LineTo? <==> ControlAt(prev.leading).None? && ControlAt(v.following).None?)
    ensures r.Ok? ==> (r.value.BezierCurveTo? <==> ControlAt(prev.leading).Some? && ControlAt(v.following).Some?)
    ensures r.Ok? && r.value.BezierCurveTo? ==>
      r.value.cp1 == ControlAt(prev.leading).value && r.value.cp2 == ControlAt(v.following).value
    ensures r.Ok? && r.value.QuadraticCurveTo? ==>
      r.value.cp == (if ControlAt(prev.leading).Some? then ControlAt(prev.leading).value else ControlAt(v.following).value)
  {
    var to :- v.origin;
    var prevControlPoint :- prev.leading;
    var currControlPoint :- v.following;
    match (prevControlPoint, currControlPoint)
    case (Some(a), Some(b)) =>
      var cp1 :- a;
      var cp2 :- b;
      Ok(BezierCurveTo(cp1, cp2, to))
    case (Some(a), None) =>
      var cp :- a;
      Ok(QuadraticCurveTo(cp, to))
    case (None, Some(b)) =>
      var cp :- b;
      Ok(QuadraticCurveTo(cp, to))
    case (None, None) => Ok(LineTo(to))
  }

  /** A global control point read and evaluated: reading succeeds and, when
      it is not `null`, so does evaluating it. */
  predicate Evaluates(g: Result<Option<MP.MagicPoint>>, at: MP.MagicPoint -> Result<Coord>) {
    g.Ok? && (g.value.Some? ==> at(g.value.value).Ok?)
  }

  /** `addLineSegment(prevPoint, point)` on the points themselves. */
  function LineSegment(prev: ShapePoint, point: ShapePoint, at: MP.MagicPoint -> Result<Coord>): (r: Result<PathCommand>)
    ensures r.Ok? <==> at(point.originPoint).Ok? && Evaluates(LeadingGlobal(prev), at) && Evaluates(FollowingGlobal(point), at)
    ensures r.Ok? ==> EndPoint(r.value) == Some(at(point.originPoint).value)
    ensures r.Ok? ==> (r.value.LineTo? <==> LeadingGlobal(prev).value.None? && FollowingGlobal(point).value.None?)
    ensures r.Ok? ==> (r.value.BezierCurveTo? <==> LeadingGlobal(prev).value.Some? && FollowingGlobal(point).value.Some?)
    ensures r.Ok? && r.value.BezierCurveTo? ==>
      r.value.cp1 == at(LeadingGlobal(prev).value.value).value && r.value.cp2 == at(FollowingGlobal(point).value.value).value
    ensures r.Ok? && r.value.QuadraticCurveTo? ==>
      r.value.cp == at(if LeadingGlobal(prev).value.Some? then LeadingGlobal(prev).value.value
                       else FollowingGlobal(point).value.value).value
  {
    Segment(VertexOf(prev, at), VertexOf(point, at))
  }

  /** The segments from `vs[i - 1]` to `vs[i]`, for `i` from `from` to the
      end, in order; the first that fails stops the path. */
  function SegmentsFrom(vs: seq<Vertex>, from: nat): (r: Result<seq<PathCommand>>)
    requires 1 <= from <= |vs|
    ensures r.Ok? <==> forall i :: from <= i < |vs| ==> Segment(vs[i - 1], vs[i]).Ok?
    ensures r.Ok? ==> |r.value| == |vs| - from
    ensures r.Ok? ==> forall i :: from <= i < |vs| ==> r.value[i - from] == Segment(vs[i - 1], vs[i]).value
    decreases |vs| - from
  {
    if from == |vs| then Ok([])
    else
      var segment :- Segment(vs[from - 1], vs[from]);
      var rest :- SegmentsFrom(vs, from + 1);
      Ok([segment] + rest)
  }

  /** `getShapePath` on evaluated points. A closed path with no points reads
      `points[-1]`, which is `undefined`: a TypeError. */
  function VertexPath(vs: seq<Vertex>, isClosed: bool): (r: Result<seq<PathCommand>>)
    ensures vs == [] ==> (r.Ok? <==> !isClosed)
    ensures vs == [] && r.Ok? ==> r.value == []
    ensures vs != [] ==> (r.Ok? <==>
      vs[0].origin.Ok? &&
      (forall i :: 1 <= i < |vs| ==> Segment(vs[i - 1], vs[i]).Ok?) &&
      (isClosed ==> Segment(vs[|vs| - 1], vs[0]).Ok?))
    ensures r.Ok? ==> forall i :: 0 <= i < |vs| ==> vs[i].origin.Ok?
    ensures vs != [] && r.Ok? ==>
      |r.value| == |vs| + (if isClosed then 2 else 0) &&
      r.value[0] == MoveTo(vs[0].origin.value) &&
      (forall i :: 1 <= i < |vs| ==> r.value[i] == Segment(vs[i - 1], vs[i]).value)
    ensures vs != [] && r.Ok? && isClosed ==>
      r.value[|vs|] == Segment(vs[|vs| - 1], vs[0]).value && r.value[|vs| + 1] == ClosePath
  {
    if vs == [] then
      if isClosed then Fail("Cannot read properties of undefined (reading 'originPoint')")
      else Ok([])
    else
      var to :- vs[0].origin;
      var first := MoveTo(to);
      var segments :- SegmentsFrom(vs, 1);
      assert SegmentsFrom(vs, 1).Ok?;
      forall i | 1 <= i < |vs| ensures vs[i].origin.Ok? {
        assert Segment(vs[i - 1], vs[i]).Ok?;
      }
      if isClosed then
        var closing :- Segment(vs[|vs| - 1], vs[0]);
        Ok([first] + segments + [closing, ClosePath])
      else
        Ok([first] + segments)
  }

  function Vertices(points: seq<ShapePoint>, at: MP.MagicPoint -> Result<Coord>): (vs: seq<Vertex>)
    ensures |vs| == |points|
    ensures forall i :: 0 <= i < |points| ==> vs[i] == VertexOf(points[i], at)
  {
    seq(|points|, i requires 0 <= i < |points| => VertexOf(points[i], at))
  }

  /** `getShapePath(points, basePoint, isClosed)`. */
  function ShapePath(points: seq<ShapePoint>, at: MP.MagicPoint -> Result<Coord>, isClosed: bool): (r: Result<seq<PathCommand>>)
    ensures points == [] ==> (r.Ok? <==> !isClosed)
    ensures points != [] ==> (r.Ok? <==>
      at(points[0].originPoint).Ok? &&
      (forall i :: 1 <= i < |points| ==> LineSegment(points[i - 1], points[i], at).Ok?) &&
      (isClosed ==> LineSegment(points[|points| - 1], points[0], at).Ok?))
    ensures r.Ok? ==> forall i :: 0 <= i < |points| ==> at(points[i].originPoint).Ok?
    ensures points != [] && r.Ok? ==>
      |r.value| == |points| + (if isClosed then 2 else 0) &&
      r.value[0] == MoveTo(at(points[0].originPoint).value) &&
      (forall i :: 1 <= i < |points| ==> r.value[i] == LineSegment(points[i - 1], points[i], at).value)
    ensures points != [] && r.Ok? && isClosed ==>
      r.value[|points|] == LineSegment(points[|points| - 1], points[0], at).value &&
      r.value[|points| + 1] == ClosePath
  {
    VertexPath(Vertices(points, at), isClosed)
  }

  /** Adding a point to an open list of points adds one segment, to the
      new point, at the end of the path; the rest of the path is unchanged. */
  lemma {:induction false} OpenPathAppend(ps: seq<ShapePoint>, point: ShapePoint, at: MP.MagicPoint -> Result<Coord>)
    requires ps != []
    requires ShapePath(ps + [point], at, false).Ok?
    ensures ShapePath(ps, at, false).Ok?
    ensures LineSegment(ps[|ps| - 1], point, at).Ok?
    ensures ShapePath(ps + [point], at, false).value ==
      ShapePath(ps, at, false).value + [LineSegment(ps[|ps| - 1], point, at).value]
  {
    var ps' := ps + [point];
    var n := |ps|;
    assert ps'[n] == point && ps'[n - 1] == ps[n - 1] && ps'[0] == ps[0];
    forall i | 1 <= i < n ensures LineSegment(ps[i - 1], ps[i], at).Ok? {
      assert ps'[i - 1] == ps[i - 1] && ps'[i] == ps[i];
    }
    var longer := ShapePath(ps', at, false).value;
    var shorter := ShapePath(ps, at, false).value;
    forall i | 0 <= i < n ensures longer[i] == shorter[i] {
      if i > 0 {
        assert ps'[i - 1] == ps[i - 1] && ps'[i] == ps[i];
      }
    }
    Arrays.ExtendByOne(longer, shorter, LineSegment(ps[n - 1], point, at).value);
  }

  /** The end points of the drawing commands, in order. */
  function EndPoints(path: seq<PathCommand>): (ends: seq<Coord>)
    ensures |ends| <= |path|
    ensures (forall i :: 0 <= i < |path| ==> EndPoint(path[i]).Some?) ==>
      |ends| == |path| && forall i :: 0 <= i < |path| ==> ends[i] == EndPoint(path[i]).value
  {
    if path == [] then []
    else match EndPoint(path[0])
      case Some(p) => [p] + EndPoints(path[1..])
      case None => EndPoints(path[1..])
  }

  /** The base-point positions of the points' origins, in order. */
  function Origins(points: seq<ShapePoint>, at: MP.MagicPoint -> Result<Coord>): (os: seq<Coord>)
    requires forall i :: 0 <= i < |points| ==> at(points[i].originPoint).Ok?
    ensures |os| == |points|
    ensures forall i :: 0 <= i < |points| ==> os[i] == at(points[i].originPoint).value
  {
    seq(|points|, i requires 0 <= i < |points| => at(points[i].originPoint).value)
  }

  lemma EndPointsAppend(a: seq<PathCommand>, b: seq<PathCommand>)
    ensures EndPoints(a + b) == EndPoints(a) + EndPoints(b)
    decreases |a|
  {
    if a != [] {
      var ab := a + b;
      assert ab[0] == a[0];
      assert ab[1..] == a[1..] + b;
      EndPointsAppend(a[1..], b);
      match EndPoint(a[0])
      case Some(p) =>
        assert EndPoints(ab) == [p] + EndPoints(a[1..] + b);
        assert EndPoints(a) == [p] + EndPoints(a[1..]);
      case None =>
        assert EndPoints(ab) == EndPoints(a[1..] + b);
        assert EndPoints(a) == EndPoints(a[1..]);
    } else {
      assert a + b == b;
    }
  }

  /** Every command of `cs` ends at the matching entry of `ends`. */
  lemma {:induction false} EndPointsOfDrawing(cs: seq<PathCommand>, ends: seq<Coord>)
    requires |cs| == |ends|
    requires forall i :: 0 <= i < |cs| ==> EndPoint(cs[i]) == Some(ends[i])
    ensures EndPoints(cs) == ends
    decreases |cs|
  {
    if cs != [] {
      EndPointsOfDrawing(cs[1..], ends[1..]);
    }
  }

  /** The origins of evaluated points, in order. */
  function VertexOrigins(vs: seq<Vertex>): (os: seq<Coord>)
    requires forall i :: 0 <= i < |vs| ==> vs[i].origin.Ok?
    ensures |os| == |vs| && forall i :: 0 <= i < |vs| ==> os[i] == vs[i].origin.value
  {
    seq(|vs|, i requires 0 <= i < |vs| => vs[i].origin.value)
  }

  lemma {:induction false} VertexPathVisitsOrigins(vs: seq<Vertex>, isClosed: bool)
    requires VertexPath(vs, isClosed).Ok?
    ensures vs != [] && !isClosed ==> EndPoints(VertexPath(vs, isClosed).value) == VertexOrigins(vs)
    ensures vs != [] && isClosed ==> EndPoints(VertexPath(vs, isClosed).value) == VertexOrigins(vs) + [vs[0].origin.value]
    ensures vs == [] ==> EndPoints(VertexPath(vs, isClosed).value) == []
  {
    var path := VertexPath(vs, isClosed).value;
    if vs != [] {
      var n := |vs|;
      var drawn := path[..n + (if isClosed then 1 else 0)];
      var ends := VertexOrigins(vs) + (if isClosed then [vs[0].origin.value] else []);
      forall i | 0 <= i < |drawn| ensures EndPoint(drawn[i]) == Some(ends[i]) {
        if i == 0 {
        } else if i < n {
          assert drawn[i] == Segment(vs[i - 1], vs[i]).value;
        } else {
          assert drawn[i] == Segment(vs[n - 1], vs[0]).value;
        }
      }
      EndPointsOfDrawing(drawn, ends);
      if isClosed {
        assert path == drawn + [ClosePath];
        EndPointsAppend(drawn, [ClosePath]);
      } else {
        assert path == drawn;
      }
    }
  }

  /** The path passes through the origins of the points in order, and
      returns to the first one when the shape is closed. */
  lemma {:induction false} PathVisitsOrigins(points: seq<ShapePoint>, at: MP.MagicPoint -> Result<Coord>, isClosed: bool)
    requires ShapePath(points, at, isClosed).Ok?
    ensures points != [] && !isClosed ==> EndPoints(ShapePath(points, at, isClosed).value) == Origins(points, at)
    ensures points != [] && isClosed ==>
      EndPoints(ShapePath(points, at, isClosed).value) == Origins(points, at) + [at(points[0].originPoint).value]
    ensures points == [] ==> EndPoints(ShapePath(points, at, isClosed).value) == []
  {
    var vs := Vertices(points, at);
    VertexPathVisitsOrigins(vs, isClosed);
    assert VertexOrigins(vs) == Origins(points, at);
  }

  /** A point with neither control point: no leading one, and (mirrored or
      not) no following one. */
  predicate Sharp(p: ShapePoint) {
    p.leading.None? && (p.mirrored || p.following.None?)
  }

  /** Points without control points draw a polygon: one `moveTo` and then
      straight lines only. */
  lemma {:induction false} SharpPointsDrawPolygon(points: seq<ShapePoint>, at: MP.MagicPoint -> Result<Coord>, isClosed: bool)
    requires forall i :: 0 <= i < |points| ==> Sharp(points[i]) && at(points[i].originPoint).Ok?
    requires points != [] || !isClosed
    ensures ShapePath(points, at, isClosed).Ok?
    ensures forall i :: 1 <= i < |points| + (if isClosed then 1 else 0) ==>
      ShapePath(points, at, isClosed).value[i].LineTo?
  {
    var r := ShapePath(points, at, isClosed);
    forall i | 1 <= i < |points| ensures LineSegment(points[i - 1], points[i], at) == Ok(LineTo(at(points[i].originPoint).value)) {
      SharpSegment(points[i - 1], points[i], at);
    }
    if points != [] && isClosed {
      SharpSegment(points[|points| - 1], points[0], at);
    }
    forall i | 1 <= i < |points| + (if isClosed then 1 else 0) ensures r.value[i].LineTo? {
      if i < |points| {
        assert r.value[i] == LineSegment(points[i - 1], points[i], at).value;
      } else {
        assert r.value[i] == LineSegment(points[|points| - 1], points[0], at).value;
      }
    }
  }

  lemma SharpSegment(prev: ShapePoint, point: ShapePoint, at: MP.MagicPoint -> Result<Coord>)
    requires Sharp(prev) && Sharp(point) && at(point.originPoint).Ok?
    ensures LineSegment(prev, point, at) == Ok(LineTo(at(point.originPoint).value))
  {
    assert LeadingGlobal(prev) == Ok(None);
    assert FollowingRelative(point) == Ok(None);
    assert FollowingGlobal(point) == Ok(None);
  }
}
