/** `ShapePoint` (src/document/shapes/ShapePoint.tsx): one vertex of a shape.
    Its origin is a magic point; its two Bezier control points are stored
    relative to the origin. While the control points are mirrored, only the
    leading one is stored and the following one is read as its negation. */
module ShapePoints {
  import opened Wrappers
  import opened Vectors
  import opened KeyPointSets
  import MP = MagicPoints

  /** `id` is the `genId` value the point receives when it is created;
      `leading` is `_leadingControlPointRelative`, `following` is
      `_followingControlPointRelative`; `None` stands for `null`. */
  datatype ShapePoint = ShapePoint(
    id: Id,
    originPoint: MP.MagicPoint,
    leading: Option<MP.MagicPoint>,
    following: Option<MP.MagicPoint>,
    mirrored: bool)

  /** `new ShapePoint().init(originPoint)`: no control points, mirrored. */
  function NewShapePoint(alloc: Fresh, originPoint: MP.MagicPoint): (p: ShapePoint)
    ensures p.id == alloc.id
    ensures p.originPoint == originPoint
    ensures p.leading.None? && p.following.None?
    ensures p.mirrored
  {
    ShapePoint(alloc.id, originPoint, None, None, true)
  }

  /** The `leadingControlPointRelative` getter: the stored field. */
  function LeadingRelative(p: ShapePoint): (r: Option<MP.MagicPoint>)
    ensures r == p.leading
  {
    p.leading
  }

  /** The `leadingControlPointRelative` setter: replaces the stored field
      and nothing else. */
  function SetLeadingRelative(p: ShapePoint, point: Option<MP.MagicPoint>): (q: ShapePoint)
    ensures LeadingRelative(q) == point
    ensures q.id == p.id && q.originPoint == p.originPoint && q.following == p.following && q.mirrored == p.mirrored
  {
    p.(leading := point)
  }

  /** The `followingControlPointRelative` getter. Mirrored: the leading
      control point scaled by -1, or `null` without one. Otherwise the
      stored field. Scaling fails like `transform` does. */
  function FollowingRelative(p: ShapePoint): (r: Result<Option<MP.MagicPoint>>)
    ensures !p.mirrored ==> r == Ok(p.following)
    ensures p.mirrored && p.leading.None? ==> r == Ok(None)
    ensures p.mirrored && p.leading.Some? ==>
      (r.Ok? <==> MP.Scale(p.leading.value, -1.0).Ok?) &&
      (r.Ok? ==> r.value == Some(MP.Scale(p.leading.value, -1.0).value))
  {
    if p.mirrored then
      match LeadingRelative(p)
      case None => Ok(None)
      case Some(l) =>
        var s :- MP.Scale(l, -1.0);
        Ok(Some(s))
    else
      Ok(p.following)
  }

  /** The `followingControlPointRelative` setter. Mirrored: stores the new
      point scaled by -1 as the leading control point (or clears it).
      Otherwise: stores the new point in the following field. */
  function SetFollowingRelative(p: ShapePoint, point: Option<MP.MagicPoint>): (r: Result<ShapePoint>)
    ensures r.Ok? ==> r.value.id == p.id && r.value.originPoint == p.originPoint && r.value.mirrored == p.mirrored
    ensures r.Ok? && p.mirrored ==> r.value.following == p.following
    ensures r.Ok? && !p.mirrored ==> r.value.leading == p.leading
    ensures !p.mirrored ==> r == Ok(p.(following := point))
    ensures p.mirrored && point.None? ==> r == Ok(p.(leading := None))
    ensures p.mirrored && point.Some? ==> (r.Ok? <==> MP.Scale(point.value, -1.0).Ok?)
    ensures p.mirrored && point.Some? && r.Ok? ==> r.value.leading == Some(MP.Scale(point.value, -1.0).value)
  {
    if p.mirrored then
      match point
      case Some(n) =>
        var s :- MP.Scale(n, -1.0);
        Ok(SetLeadingRelative(p, Some(s)))
      case None => Ok(SetLeadingRelative(p, None))
    else
      Ok(p.(following := point))
  }

  /** Origin plus a relative control point; `null` stays `null`. */
  function Absolute(origin: MP.MagicPoint, rel: Option<MP.MagicPoint>): (r: Result<Option<MP.MagicPoint>>)
    ensures rel.None? ==> r == Ok(None)
    ensures rel.Some? ==> (r.Ok? <==> MP.Add(origin, rel.value).Ok?)
    ensures rel.Some? && r.Ok? ==> r.value == Some(MP.Add(origin, rel.value).value)
  {
    match rel
    case None => Ok(None)
    case Some(c) =>
      var g :- MP.Add(origin, c);
      Ok(Some(g))
  }

  /** A global control point made relative to the origin; `null` stays `null`. */
  function Relative(origin: MP.MagicPoint, global: Option<MP.MagicPoint>): (r: Result<Option<MP.MagicPoint>>)
    ensures global.None? ==> r == Ok(None)
    ensures global.Some? ==> (r.Ok? <==> MP.Subtract(global.value, origin).Ok?)
    ensures global.Some? && r.Ok? ==> r.value == Some(MP.Subtract(global.value, origin).value)
  {
    match global
    case None => Ok(None)
    case Some(g) =>
      var c :- MP.Subtract(g, origin);
      Ok(Some(c))
  }

  /** The `leadingControlPointGlobal` getter. */
  function LeadingGlobal(p: ShapePoint): (r: Result<Option<MP.MagicPoint>>)
    ensures p.leading.None? <==> r == Ok(None)
    ensures p.leading.Some? ==> (r.Ok? <==> MP.Add(p.originPoint, p.leading.value).Ok?)
    ensures p.leading.Some? && r.Ok? ==> r.value == Some(MP.Add(p.originPoint, p.leading.value).value)
  {
    Absolute(p.originPoint, LeadingRelative(p))
  }

  /** The `leadingControlPointGlobal` setter. */
  function SetLeadingGlobal(p: ShapePoint, point: Option<MP.MagicPoint>): (r: Result<ShapePoint>)
    ensures point.None? ==> r == Ok(p.(leading := None))
    ensures point.Some? ==> (r.Ok? <==> MP.Subtract(point.value, p.originPoint).Ok?)
    ensures point.Some? && r.Ok? ==> r.value.leading == Some(MP.Subtract(point.value, p.originPoint).value)
    ensures r.Ok? ==> r.value.id == p.id && r.value.originPoint == p.originPoint && r.value.following == p.following && r.value.mirrored == p.mirrored
  {
    var rel :- Relative(p.originPoint, point);
    Ok(SetLeadingRelative(p, rel))
  }

  /** The `followingControlPointGlobal` getter. */
  function FollowingGlobal(p: ShapePoint): (r: Result<Option<MP.MagicPoint>>)
    ensures FollowingRelative(p) == Ok(None) ==> r == Ok(None)
    ensures FollowingRelative(p).Fail? ==> r.Fail?
    ensures FollowingRelative(p).Ok? && FollowingRelative(p).value.Some? ==>
      (r.Ok? <==> MP.Add(p.originPoint, FollowingRelative(p).value.value).Ok?) &&
      (r.Ok? ==> r.value == Some(MP.Add(p.originPoint, FollowingRelative(p).value.value).value))
  {
    var rel :- FollowingRelative(p);
    Absolute(p.originPoint, rel)
  }

  /** The `followingControlPointGlobal` setter. */
  function SetFollowingGlobal(p: ShapePoint, point: Option<MP.MagicPoint>): (r: Result<ShapePoint>)
    ensures r.Ok? ==> r.value.id == p.id && r.value.originPoint == p.originPoint && r.value.mirrored == p.mirrored
    ensures r.Ok? && p.mirrored ==> r.value.following == p.following
    ensures r.Ok? && !p.mirrored ==> r.value.leading == p.leading
    ensures r.Ok? && !p.mirrored ==> Relative(p.originPoint, point).Ok? && r.value.following == Relative(p.originPoint, point).value
    ensures point.Some? && !p.mirrored ==> (r.Ok? <==> MP.Subtract(point.value, p.originPoint).Ok?)
    ensures point.None? ==> r.Ok? && (if p.mirrored then r.value.leading.None? else r.value.following.None?)
    ensures point.Some? && p.mirrored && r.Ok? ==>
      MP.Subtract(point.value, p.originPoint).Ok? &&
      r.value.leading == Some(MP.Scale(MP.Subtract(point.value, p.originPoint).value, -1.0).value)
    ensures point.Some? && p.mirrored ==>
      (r.Ok? <==> MP.Subtract(point.value, p.originPoint).Ok? &&
                  MP.Scale(MP.Subtract(point.value, p.originPoint).value, -1.0).Ok?)
  {
    var rel :- Relative(p.originPoint, point);
    SetFollowingRelative(p, rel)
  }

  /** While mirrored, setting the following control point and reading it
      back gives the point that was set. */
  lemma {:induction false} MirroredFollowingRoundTrip(p: ShapePoint, point: MP.MagicPoint)
    requires p.mirrored
    requires SetFollowingRelative(p, Some(point)).Ok?
    ensures FollowingRelative(SetFollowingRelative(p, Some(point)).value) == Ok(Some(point))
  {
    MP.ScaleTwiceByMinusOne(point);
  }

  /** While not mirrored, the following control point is its own field:
      setting it and reading it back gives the point that was set, and the
      leading control point is untouched. */
  lemma UnmirroredFollowingRoundTrip(p: ShapePoint, point: Option<MP.MagicPoint>)
    requires !p.mirrored
    ensures SetFollowingRelative(p, point).Ok?
    ensures FollowingRelative(SetFollowingRelative(p, point).value) == Ok(point)
    ensures LeadingRelative(SetFollowingRelative(p, point).value) == LeadingRelative(p)
  {
  }

  /** Clearing the following control point while mirrored clears the
      leading one too: both read back as `null`. */
  lemma MirroredClearBoth(p: ShapePoint)
    requires p.mirrored
    ensures SetFollowingRelative(p, None).Ok?
    ensures LeadingRelative(SetFollowingRelative(p, None).value).None?
    ensures FollowingRelative(SetFollowingRelative(p, None).value) == Ok(None)
  {
  }

  /** Setting the leading control point globally and reading it back gives,
      at every key the origin and the new point both define, the new
      point's value, provided both are bound to the same set. The result is
      keyed like the origin, since `add` follows the origin's keys. */
  lemma LeadingGlobalAt(p: ShapePoint, g: MP.MagicPoint, q: ShapePoint, back: MP.MagicPoint, k: Id)
    requires g.keyPointSet == p.originPoint.keyPointSet
    requires SetLeadingGlobal(p, Some(g)) == Ok(q)
    requires LeadingGlobal(q) == Ok(Some(back))
    requires k in p.originPoint.values.vals && k in g.values.vals
    ensures back.values.vals[k] == g.values.vals[k]
  {
    var o := p.originPoint;
    var rel := q.leading.value;
    var kp := Get(o.keyPointSet, k).value;
    assert kp.id == k && Has(o.keyPointSet, kp);
    MP.SubtractAt(g, o, rel, k);
    MP.AddAt(o, rel, back, k);
    assert MP.GetAtKeyPoint(o, kp) == Ok(o.values.vals[k]);
    assert MP.GetAtKeyPoint(rel, kp) == Ok(rel.values.vals[k]);
    OffsetThenRestore(g.values.vals[k], o.values.vals[k]);
  }

  /** The readback keeps the origin's keys and set. */
  lemma LeadingGlobalShape(p: ShapePoint, g: MP.MagicPoint, q: ShapePoint, back: MP.MagicPoint)
    requires SetLeadingGlobal(p, Some(g)) == Ok(q)
    requires LeadingGlobal(q) == Ok(Some(back))
    ensures back.keyPointSet == p.originPoint.keyPointSet
    ensures back.values.keys == p.originPoint.values.keys
  {
    MP.AddPointwise(p.originPoint, q.leading.value);
  }

  /** With the same set and the same keys, the readback cannot fail. */
  lemma LeadingGlobalSucceeds(p: ShapePoint, g: MP.MagicPoint, q: ShapePoint)
    requires g.keyPointSet == p.originPoint.keyPointSet
    requires g.values.keys == p.originPoint.values.keys
    requires SetLeadingGlobal(p, Some(g)) == Ok(q)
    ensures LeadingGlobal(q).Ok?
  {
    var o := p.originPoint;
    var rel := q.leading.value;
    MP.SubtractShape(g, o, rel);
    MP.SameKeysResolve(o, rel);
    MP.AddSucceeds(o, rel);
  }

  /** When the origin and the new point are bound to the same set and
      define the same keys, setting the leading control point globally and
      reading it back gives the point that was set. */
  lemma {:induction false} LeadingGlobalRoundTrip(p: ShapePoint, g: MP.MagicPoint)
    requires g.keyPointSet == p.originPoint.keyPointSet
    requires g.values.keys == p.originPoint.values.keys
    requires SetLeadingGlobal(p, Some(g)).Ok?
    ensures LeadingGlobal(SetLeadingGlobal(p, Some(g)).value) == Ok(Some(g))
  {
    var q := SetLeadingGlobal(p, Some(g)).value;
    LeadingGlobalSucceeds(p, g, q);
    MP.SubtractPointwise(g, p.originPoint);
    var back := LeadingGlobal(q).value.value;
    LeadingGlobalShape(p, g, q, back);
    forall k | k in back.values.vals ensures back.values.vals[k] == g.values.vals[k] {
      LeadingGlobalAt(p, g, q, back, k);
    }
    MP.SameEntries(back, g);
  }

  /** Assigning `areControlPointsMirrored`. */
  function SetMirrored(p: ShapePoint, mirrored: bool): (q: ShapePoint)
    ensures q.mirrored == mirrored
    ensures q.id == p.id && q.originPoint == p.originPoint && q.leading == p.leading && q.following == p.following
  {
    p.(mirrored := mirrored)
  }

  /** Toggling mirroring moves no data: the origin and both stored control
      points stay as they were, and only which of them the following
      getter reads changes. */
  lemma ToggleMirroredMovesNoData(p: ShapePoint, mirrored: bool)
    ensures var q := SetMirrored(p, mirrored);
      q.originPoint == p.originPoint && q.leading == p.leading && q.following == p.following
    ensures LeadingRelative(SetMirrored(p, mirrored)) == LeadingRelative(p)
    ensures !mirrored ==> FollowingRelative(SetMirrored(p, mirrored)) == Ok(p.following)
    ensures mirrored && p.leading.None? ==> FollowingRelative(SetMirrored(p, mirrored)) == Ok(None)
  {
  }

  /** Setting the following control point globally and reading it back
      gives the point that was set, mirrored or not, under the same
      conditions as the leading one. */
  lemma {:induction false} FollowingGlobalRoundTrip(p: ShapePoint, g: MP.MagicPoint)
    requires g.keyPointSet == p.originPoint.keyPointSet
    requires g.values.keys == p.originPoint.values.keys
    requires SetFollowingGlobal(p, Some(g)).Ok?
    ensures FollowingGlobal(SetFollowingGlobal(p, Some(g)).value) == Ok(Some(g))
  {
    var o := p.originPoint;
    var rel := MP.Subtract(g, o).value;
    var q := SetFollowingGlobal(p, Some(g)).value;
    assert SetFollowingRelative(p, Some(rel)) == Ok(q);
    if p.mirrored {
      MirroredFollowingRoundTrip(p, rel);
    } else {
      UnmirroredFollowingRoundTrip(p, Some(rel));
    }
    assert FollowingRelative(q) == Ok(Some(rel));
    assert SetLeadingGlobal(p, Some(g)) == Ok(p.(leading := Some(rel)));
    LeadingGlobalRoundTrip(p, g);
    assert FollowingGlobal(q) == Absolute(o, Some(rel)) == LeadingGlobal(p.(leading := Some(rel)));
  }

  /** Setting the following control point globally and reading it back
      gives, at every key the origin and the new point both define, the new
      point's value, mirrored or not, provided both are bound to the same
      set. While mirrored the value travels through the leading field
      negated and is negated back on reading. */
  lemma {:induction false} FollowingGlobalAt(p: ShapePoint, g: MP.MagicPoint, q: ShapePoint, back: MP.MagicPoint, k: Id)
    requires g.keyPointSet == p.originPoint.keyPointSet
    requires SetFollowingGlobal(p, Some(g)) == Ok(q)
    requires FollowingGlobal(q) == Ok(Some(back))
    requires k in p.originPoint.values.vals && k in g.values.vals
    ensures back.values.vals[k] == g.values.vals[k]
  {
    var o := p.originPoint;
    var rel := MP.Subtract(g, o).value;
    assert SetFollowingRelative(p, Some(rel)) == Ok(q);
    if p.mirrored {
      MirroredFollowingRoundTrip(p, rel);
    } else {
      UnmirroredFollowingRoundTrip(p, Some(rel));
    }
    var lq := p.(leading := Some(rel));
    assert SetLeadingGlobal(p, Some(g)) == Ok(lq);
    assert LeadingGlobal(lq) == FollowingGlobal(q);
    LeadingGlobalAt(p, g, lq, back, k);
  }
}
