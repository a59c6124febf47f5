/** `KeyPointSet` (src/document/KeypointSet.tsx): the key points of a scene,
    an object keyed by point id. Membership is by object identity. */
module KeyPointSets {
  import opened Wrappers
  import opened Vectors
  import Dict

  /** `addKeyPoint` files a point under its own id. */
  ghost predicate StoredUnderOwnId(d: Dict.Dict<Vector2>) {
    forall k :: k in d.vals ==> d.vals[k].id == k
  }

  datatype KeyPointSetData = KeyPointSetData(ref: Ref, id: Id, byId: Dict.Dict<Vector2>)

  type KeyPointSet = s: KeyPointSetData | StoredUnderOwnId(s.byId)
    witness KeyPointSetData(0, "", Dict.Empty())

  /** `new KeyPointSet()`. */
  function NewKeyPointSet(alloc: Fresh): (s: KeyPointSet)
    ensures s.ref == alloc.ref && s.id == alloc.id
    ensures forall id :: Get(s, id).None?
  {
    KeyPointSetData(alloc.ref, alloc.id, Dict.Empty())
  }

  /** The `keyPoints` getter: the stored points, one per id, in the order
      their ids were first added. */
  function KeyPoints(s: KeyPointSet): (r: seq<Vector2>)
    ensures |r| == |s.byId.keys|
    ensures forall i :: 0 <= i < |r| ==> r[i].id == s.byId.keys[i] && Get(s, r[i].id) == Some(r[i])
  {
    Dict.Values(s.byId)
  }

  /** `addKeyPoint(point)`: files the point under its id, replacing any
      point stored there; the set stays the same object. */
  function AddKeyPoint(s: KeyPointSet, point: Vector2): (r: KeyPointSet)
    ensures r.ref == s.ref && r.id == s.id
    ensures Get(r, point.id) == Some(point)
    ensures forall id :: id != point.id ==> Get(r, id) == Get(s, id)
  {
    var d := Dict.Put(s.byId, point.id, point);
    assert StoredUnderOwnId(d);
    s.(byId := d)
  }

  /** `get(id)`: the stored object, or `null`. */
  function Get(s: KeyPointSet, id: Id): (r: Option<Vector2>)
    ensures r.Some? <==> id in s.byId.vals
    ensures r.Some? ==> r.value.id == id
  {
    Dict.Get(s.byId, id)
  }

  /** `has(point)`: `get(point.id) === point`, so a member is a listed
      point that is the same object. */
  predicate Has(s: KeyPointSet, point: Vector2)
    ensures Has(s, point) <==> exists q :: q in KeyPoints(s) && q.id == point.id && q.ref == point.ref
  {
    KeyPointsAreStored(s);
    match Get(s, point.id)
    case Some(q) => q.ref == point.ref
    case None => false
  }

  /** `getNearestTo(target)`: lodash `minBy` over `keyPoints`, which, like
      `findNearest`, keeps the first candidate at minimal distance. */
  function GetNearestTo(s: KeyPointSet, target: Vector2): (r: Result<Vector2>)
    ensures r.Fail? <==> s.byId.keys == []
    ensures r.Ok? ==> Has(s, r.value) && r.value in KeyPoints(s)
    ensures r.Ok? ==> forall p :: p in KeyPoints(s) ==>
      DistanceSq(target.At(), r.value.At()) <= DistanceSq(target.At(), p.At())
  {
    match FindNearest(target, KeyPoints(s))
    case None => Fail("nearest must be found")
    case Some(p) =>
      KeyPointsAreStored(s);
      Ok(p)
  }

  /** Every listed key point is stored under its id, and the ids are
      distinct: `keyPoints` lists the stored points one per id. */
  lemma KeyPointsAreStored(s: KeyPointSet)
    ensures |KeyPoints(s)| == |s.byId.keys|
    ensures forall p :: p in KeyPoints(s) <==> Get(s, p.id) == Some(p)
    ensures forall i, j :: 0 <= i < j < |KeyPoints(s)| ==> KeyPoints(s)[i].id != KeyPoints(s)[j].id
  {
    var ps := KeyPoints(s);
    forall p: Vector2 | Get(s, p.id) == Some(p) ensures p in ps {
      var i :| 0 <= i < |s.byId.keys| && s.byId.keys[i] == p.id;
      assert ps[i] == p;
    }
  }

  /** After `addKeyPoint(p)`, `get(p.id)` is `p` and `has(p)` holds; every
      other id keeps its entry. */
  lemma AddKeyPointThenGet(s: KeyPointSet, point: Vector2, id: Id)
    ensures Get(AddKeyPoint(s, point), point.id) == Some(point)
    ensures Has(AddKeyPoint(s, point), point)
    ensures id != point.id ==> Get(AddKeyPoint(s, point), id) == Get(s, id)
  {
  }

  /** `addKeyPoint` overwrites in place an entry with the same id and
      otherwise appends the point to `keyPoints`. */
  lemma AddKeyPointListing(s: KeyPointSet, point: Vector2)
    ensures Get(s, point.id).Some? ==> |KeyPoints(AddKeyPoint(s, point))| == |KeyPoints(s)|
    ensures Get(s, point.id).Some? ==> forall i :: 0 <= i < |KeyPoints(s)| ==>
      KeyPoints(AddKeyPoint(s, point))[i] == if KeyPoints(s)[i].id == point.id then point else KeyPoints(s)[i]
    ensures Get(s, point.id).None? ==> KeyPoints(AddKeyPoint(s, point)) == KeyPoints(s) + [point]
  {
    var s' := AddKeyPoint(s, point);
    if Get(s, point.id).None? {
      assert KeyPoints(s') == KeyPoints(s) + [point];
    }
  }

  /** The set after adding `points` one by one. */
  function AddAll(s: KeyPointSet, points: seq<Vector2>): KeyPointSet
    decreases |points|
  {
    if points == [] then s else AddAll(AddKeyPoint(s, points[0]), points[1..])
  }

  /** Adding points leaves the set the same object. */
  lemma {:induction false} AddAllKeepsIdentity(s: KeyPointSet, points: seq<Vector2>)
    ensures AddAll(s, points).ref == s.ref && AddAll(s, points).id == s.id
    decreases |points|
  {
    if points != [] {
      AddAllKeepsIdentity(AddKeyPoint(s, points[0]), points[1..]);
    }
  }

  /** `get` returns `null` for an id none of the added points carries. */
  lemma {:induction false} NeverAddedIsAbsent(s: KeyPointSet, points: seq<Vector2>, id: Id)
    requires Get(s, id).None?
    requires forall p :: p in points ==> p.id != id
    ensures Get(AddAll(s, points), id).None?
    decreases |points|
  {
    if points != [] {
      assert points[0] in points;
      NeverAddedIsAbsent(AddKeyPoint(s, points[0]), points[1..], id);
    }
  }

  /** Adding a point whose id is new appends it to `keyPoints`. */
  lemma AddNewKeyPoint(s: KeyPointSet, point: Vector2)
    requires Get(s, point.id).None?
    ensures KeyPoints(AddKeyPoint(s, point)) == KeyPoints(s) + [point]
  {
    AddKeyPointListing(s, point);
  }

  /** Ids other than the added point's stay absent. */
  lemma OthersStayAbsent(s: KeyPointSet, point: Vector2, rest: seq<Vector2>)
    requires forall i :: 0 <= i < |rest| ==> Get(s, rest[i].id).None? && rest[i].id != point.id
    ensures forall i :: 0 <= i < |rest| ==> Get(AddKeyPoint(s, point), rest[i].id).None?
  {
  }

  /** After adding the first of points with new, distinct ids, the rest
      still have new, distinct ids. */
  lemma TailStaysFresh(s: KeyPointSet, points: seq<Vector2>)
    requires points != []
    requires forall i :: 0 <= i < |points| ==> Get(s, points[i].id).None?
    requires forall i, j :: 0 <= i < j < |points| ==> points[i].id != points[j].id
    ensures forall i :: 0 <= i < |points[1..]| ==> Get(AddKeyPoint(s, points[0]), points[1..][i].id).None?
    ensures forall i, j :: 0 <= i < j < |points[1..]| ==> points[1..][i].id != points[1..][j].id
  {
    var rest := points[1..];
    assert forall i :: 0 <= i < |rest| ==> rest[i] == points[i + 1];
    OthersStayAbsent(s, points[0], rest);
  }

  /** Appending the head and then the tail appends the whole. */
  lemma AppendInTurn<T>(a: seq<T>, b: seq<T>, c: seq<T>, xs: seq<T>)
    requires xs != [] && b == a + [xs[0]] && c == b + xs[1..]
    ensures c == a + xs
  {
    assert [xs[0]] + xs[1..] == xs;
  }

  /** Adding points whose ids are new and distinct appends them to
      `keyPoints` in the order they were added. */
  lemma {:induction false} AddAllListing(s: KeyPointSet, points: seq<Vector2>)
    requires forall i :: 0 <= i < |points| ==> Get(s, points[i].id).None?
    requires forall i, j :: 0 <= i < j < |points| ==> points[i].id != points[j].id
    ensures KeyPoints(AddAll(s, points)) == KeyPoints(s) + points
    decreases |points|
  {
    if points != [] {
      var s' := AddKeyPoint(s, points[0]);
      AddNewKeyPoint(s, points[0]);
      TailStaysFresh(s, points);
      AddAllListing(s', points[1..]);
      AppendInTurn(KeyPoints(s), KeyPoints(s'), KeyPoints(AddAll(s', points[1..])), points);
    }
  }

  /** `has` is identity: another object carrying a member's id is not a
      member. */
  lemma HasIsIdentity(s: KeyPointSet, p: Vector2, q: Vector2)
    requires Has(s, p) && q.id == p.id && q.ref != p.ref
    ensures !Has(s, q)
  {
  }
}
