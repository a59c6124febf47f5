/** `MagicPointThingy` (src/document/MagicPointThingy.tsx): a point whose
    value is given per key point of its bound `KeyPointSet`. A key point
    without a stored value takes the value stored at the nearest key point
    that has one. Stored values are kept as coordinates: nothing here looks
    at the identity of a value object. */
module MagicPoints {
  import opened Wrappers
  import opened Vectors
  import Dict
  import opened KeyPointSets

  /** `keyPointSet` is the bound set; `values` is `pointsByKeyPointId`. */
  datatype MagicPoint = MagicPoint(keyPointSet: KeyPointSet, values: Dict.Dict<Coord>)

  /** `new MagicPointThingy().init(keyPointSet)`. */
  function NewMagicPoint(keyPointSet: KeyPointSet): (m: MagicPoint)
    ensures m.keyPointSet == keyPointSet
    ensures m.values.keys == []
  {
    MagicPoint(keyPointSet, Dict.Empty())
  }

  /** The key points stored under `ids`, in order; a missing one crashes. */
  function KeyPointsFor(s: KeyPointSet, ids: seq<Id>): (r: Result<seq<Vector2>>)
    ensures r.Ok? <==> forall i :: 0 <= i < |ids| ==> Get(s, ids[i]).Some?
    ensures r.Ok? ==> |r.value| == |ids|
    ensures r.Ok? ==> forall i :: 0 <= i < |ids| ==> Get(s, ids[i]) == Some(r.value[i])
    decreases |ids|
  {
    if ids == [] then Ok([])
    else match Get(s, ids[0])
      case None => Fail("point must exist")
      case Some(p) =>
        var rest :- KeyPointsFor(s, ids[1..]);
        Ok([p] + rest)
  }

  /** Every stored id names a key point of the bound set. */
  ghost predicate Consistent(m: MagicPoint) {
    forall k :: k in m.values.vals ==> Get(m.keyPointSet, k).Some?
  }

  /** The `definedKeyPoints` getter: the key points with a stored value, in
      key order; it crashes when a stored id is not in the set. */
  function DefinedKeyPoints(m: MagicPoint): (r: Result<seq<Vector2>>)
    ensures r.Ok? <==> Consistent(m)
    ensures r.Ok? ==> |r.value| == |m.values.keys|
    ensures r.Ok? ==> forall i :: 0 <= i < |m.values.keys| ==> r.value[i].id == m.values.keys[i]
    ensures r.Ok? ==> forall p :: p in r.value <==> p.id in m.values.vals && Get(m.keyPointSet, p.id) == Some(p)
  {
    var r := KeyPointsFor(m.keyPointSet, m.values.keys);
    if r.Ok? then
      forall p: Vector2 | p.id in m.values.vals && Get(m.keyPointSet, p.id) == Some(p) ensures p in r.value {
        var i :| 0 <= i < |m.values.keys| && m.values.keys[i] == p.id;
        assert r.value[i] == p;
      }
      r
    else
      r
  }

  /** `getAtKeyPoint(keyPoint)`. The fallback for a key point without a
      stored value is stated by `GetAtKeyPointFallback`. */
  function GetAtKeyPoint(m: MagicPoint, keyPoint: Vector2): (r: Result<Coord>)
    ensures !Has(m.keyPointSet, keyPoint) ==> r.Fail?
    ensures Has(m.keyPointSet, keyPoint) && keyPoint.id in m.values.vals ==> r == Ok(m.values.vals[keyPoint.id])
  {
    if !Has(m.keyPointSet, keyPoint) then Fail("key point must be in scene")
    else if keyPoint.id in m.values.vals then Ok(m.values.vals[keyPoint.id])
    else
      var defined :- DefinedKeyPoints(m);
      match NearestIndex(keyPoint.At(), defined)
      case None => Fail("nearest point must be found")
      case Some(j) => Ok(m.values.vals[defined[j].id])
  }

  /** A member without a stored value takes the value stored at the nearest
      defined key point, ties going to the earliest in `definedKeyPoints`;
      it fails when nothing is defined or a stored id is not in the set. */
  lemma GetAtKeyPointFallback(m: MagicPoint, keyPoint: Vector2)
    requires Has(m.keyPointSet, keyPoint) && keyPoint.id !in m.values.vals
    ensures GetAtKeyPoint(m, keyPoint).Ok? <==> Consistent(m) && m.values.keys != []
    ensures GetAtKeyPoint(m, keyPoint).Ok? ==>
      exists j :: IsNearest(keyPoint.At(), DefinedKeyPoints(m).value, j) &&
        GetAtKeyPoint(m, keyPoint).value == m.values.vals[m.values.keys[j]]
  {
    if Consistent(m) && m.values.keys != [] {
      var defined := DefinedKeyPoints(m).value;
      var j := NearestIndex(keyPoint.At(), defined).value;
      assert IsNearest(keyPoint.At(), defined, j);
    }
  }

  /** `getAtKeyPoint` at each of `ks`, in order; the first lookup that
      fails crashes. */
  function ValuesAt(m: MagicPoint, ks: seq<Vector2>): (r: Result<seq<Coord>>)
    ensures r.Ok? <==> forall i :: 0 <= i < |ks| ==> GetAtKeyPoint(m, ks[i]).Ok?
    ensures r.Ok? ==> |r.value| == |ks|
    ensures r.Ok? ==> forall i :: 0 <= i < |ks| ==> r.value[i] == GetAtKeyPoint(m, ks[i]).value
    decreases |ks|
  {
    if ks == [] then Ok([])
    else
      var v :- GetAtKeyPoint(m, ks[0]);
      var rest :- ValuesAt(m, ks[1..]);
      Ok([v] + rest)
  }

  /** A thin-plate-spline fit through values given at source points,
      evaluated at a point (`new ThinPlateSplines2(sourcePoints,
      targetValues).getValue(atPoint)`). The fit itself is not modelled; a
      system it cannot solve, such as one with two source points at the
      same place, is its `Fail`. */
  type Spline = (seq<Vector2>, seq<real>, Vector2) -> Result<real>

  /** `getAtBasePoint(atPoint)`: one spline fit per axis through the
      values `getAtKeyPoint` gives at every key point of the set. A lookup
      that crashes makes the whole evaluation crash, and so does a fit
      without source points or one the spline cannot solve. */
  function GetAtBasePoint(m: MagicPoint, atPoint: Vector2, spline: Spline): (r: Result<Coord>)
    ensures KeyPoints(m.keyPointSet) == [] ==> r.Fail?
    ensures r.Ok? ==> forall i :: 0 <= i < |KeyPoints(m.keyPointSet)| ==> GetAtKeyPoint(m, KeyPoints(m.keyPointSet)[i]).Ok?
    ensures r.Ok? ==>
      var ks := KeyPoints(m.keyPointSet);
      spline(ks, Xs(ValuesAt(m, ks).value), atPoint) == Ok(r.value.x) &&
      spline(ks, Ys(ValuesAt(m, ks).value), atPoint) == Ok(r.value.y)
    ensures KeyPoints(m.keyPointSet) != [] && ValuesAt(m, KeyPoints(m.keyPointSet)).Ok? ==>
      var ks := KeyPoints(m.keyPointSet);
      (r.Ok? <==> spline(ks, Xs(ValuesAt(m, ks).value), atPoint).Ok? && spline(ks, Ys(ValuesAt(m, ks).value), atPoint).Ok?)
  {
    var sourcePoints := KeyPoints(m.keyPointSet);
    var values :- ValuesAt(m, sourcePoints);
    if sourcePoints == [] then Fail("bad centers array :/")
    else
      var x :- spline(sourcePoints, Xs(values), atPoint);
      var y :- spline(sourcePoints, Ys(values), atPoint);
      Ok(Coord(x, y))
  }

  function Xs(cs: seq<Coord>): (xs: seq<real>)
    ensures |xs| == |cs| && forall i :: 0 <= i < |cs| ==> xs[i] == cs[i].x
  {
    seq(|cs|, i requires 0 <= i < |cs| => cs[i].x)
  }

  function Ys(cs: seq<Coord>): (ys: seq<real>)
    ensures |ys| == |cs| && forall i :: 0 <= i < |cs| ==> ys[i] == cs[i].y
  {
    seq(|cs|, i requires 0 <= i < |cs| => cs[i].y)
  }

  /** Every key point of the set has a stored value, or the stored ids
      are all in the set and at least one is stored, so that the nearest
      stored one can stand in. */
  ghost predicate EveryKeyPointResolves(m: MagicPoint) {
    (forall p :: p in KeyPoints(m.keyPointSet) ==> p.id in m.values.vals) || (Consistent(m) && m.values.keys != [])
  }

  /** Evaluation at a base point succeeds exactly when the set has key
      points, every one of them resolves and both spline fits succeed. So a magic point that stores nothing never
      evaluates. */
  lemma {:induction false} GetAtBasePointSucceeds(m: MagicPoint, atPoint: Vector2, spline: Spline)
    ensures GetAtBasePoint(m, atPoint, spline).Ok? ==> KeyPoints(m.keyPointSet) != [] && EveryKeyPointResolves(m)
    ensures KeyPoints(m.keyPointSet) != [] && EveryKeyPointResolves(m) ==>
      var ks := KeyPoints(m.keyPointSet);
      ValuesAt(m, ks).Ok? &&
      (GetAtBasePoint(m, atPoint, spline).Ok? <==>
        spline(ks, Xs(ValuesAt(m, ks).value), atPoint).Ok? && spline(ks, Ys(ValuesAt(m, ks).value), atPoint).Ok?)
    ensures m.values.keys == [] ==> GetAtBasePoint(m, atPoint, spline).Fail?
  {
    var ks := KeyPoints(m.keyPointSet);
    KeyPointsAreStored(m.keyPointSet);
    forall i | 0 <= i < |ks| ensures Has(m.keyPointSet, ks[i]) {
      assert Get(m.keyPointSet, ks[i].id) == Some(ks[i]);
    }
    forall i | 0 <= i < |ks| && ks[i].id !in m.values.vals
      ensures GetAtKeyPoint(m, ks[i]).Ok? <==> Consistent(m) && m.values.keys != []
    {
      GetAtKeyPointFallback(m, ks[i]);
    }
    if m.values.keys == [] && ks != [] {
      assert m.values.vals.Keys == {};
      assert ks[0].id !in m.values.vals;
    }
  }

  /** `setAtKeyPoint(keyPoint, value)`. */
  function SetAtKeyPoint(m: MagicPoint, keyPoint: Vector2, value: Coord): (r: Result<MagicPoint>)
    ensures r.Fail? <==> !Has(m.keyPointSet, keyPoint)
    ensures r.Ok? ==> r.value.keyPointSet == m.keyPointSet
    ensures r.Ok? ==> r.value.values.vals == m.values.vals[keyPoint.id := value]
    ensures r.Ok? && keyPoint.id in m.values.vals ==> r.value.values.keys == m.values.keys
    ensures r.Ok? && keyPoint.id !in m.values.vals ==> r.value.values.keys == m.values.keys + [keyPoint.id]
  {
    if !Has(m.keyPointSet, keyPoint) then Fail("keyPoint must exist in scene")
    else Ok(m.(values := Dict.Put(m.values, keyPoint.id, value)))
  }

  /** The ids of a list of points. */
  function Ids(ps: seq<Vector2>): (ids: seq<Id>)
    ensures |ids| == |ps| && forall i :: 0 <= i < |ps| ==> ids[i] == ps[i].id
  {
    seq(|ps|, i requires 0 <= i < |ps| => ps[i].id)
  }

  /** `mapFn` applied at the defined key point stored under `k`. */
  ghost function MapAt(m: MagicPoint, mapFn: (Coord, Vector2) -> Result<Coord>, k: Id): Result<Coord>
    requires k in m.values.vals && Get(m.keyPointSet, k).Some?
  {
    mapFn(m.values.vals[k], Get(m.keyPointSet, k).value)
  }

  /** `mapFn` succeeds at every defined key point. */
  ghost predicate MapSucceeds(m: MagicPoint, mapFn: (Coord, Vector2) -> Result<Coord>)
    requires Consistent(m)
  {
    forall k :: k in m.values.vals ==> MapAt(m, mapFn, k).Ok?
  }

  /** The entries `transform` writes for the ids `ids`. */
  ghost function MappedEntries(m: MagicPoint, mapFn: (Coord, Vector2) -> Result<Coord>, ids: seq<Id>): (e: map<Id, Coord>)
    requires forall k :: k in ids ==> k in m.values.vals && Get(m.keyPointSet, k).Some? && MapAt(m, mapFn, k).Ok?
    ensures e.Keys == set k | k in ids
  {
    map k | k in ids :: MapAt(m, mapFn, k).value
  }

  /** The object `transform(mapFn)` is meant to return, stated without the
      loop: bound to the same set, with the same keys in the same order, and
      `mapFn(value, keyPoint)` under each. */
  ghost function Mapped(m: MagicPoint, mapFn: (Coord, Vector2) -> Result<Coord>): MagicPoint
    requires Consistent(m) && MapSucceeds(m, mapFn)
  {
    var e := MappedEntries(m, mapFn, m.values.keys);
    assert e.Keys == m.values.vals.Keys;
    MagicPoint(m.keyPointSet, Dict.RawDict(m.values.keys, e))
  }

  /** The `forEach` of `transform` over the remaining key points `ks`,
      writing into `acc`. */
  function TransformEach(m: MagicPoint, ks: seq<Vector2>, acc: MagicPoint, mapFn: (Coord, Vector2) -> Result<Coord>): (r: Result<MagicPoint>)
    requires acc.keyPointSet == m.keyPointSet
    requires forall i :: 0 <= i < |ks| ==> ks[i].id in m.values.vals && Get(m.keyPointSet, ks[i].id) == Some(ks[i])
    requires forall i, j :: 0 <= i < j < |ks| ==> ks[i].id != ks[j].id
    requires forall i :: 0 <= i < |ks| ==> ks[i].id !in acc.values.vals
    ensures r.Ok? <==> forall i :: 0 <= i < |ks| ==> MapAt(m, mapFn, ks[i].id).Ok?
    ensures r.Ok? ==> r.value.keyPointSet == m.keyPointSet
    ensures r.Ok? ==> r.value.values.keys == acc.values.keys + Ids(ks)
    ensures r.Ok? ==> r.value.values.vals == acc.values.vals + MappedEntries(m, mapFn, Ids(ks))
    decreases |ks|
  {
    if ks == [] then
      assert MappedEntries(m, mapFn, Ids(ks)) == map[];
      Ok(acc)
    else
      var k := ks[0];
      var value := GetAtKeyPoint(m, k);
      var mapped := mapFn(value.value, k);
      if mapped.Fail? then
        assert !MapAt(m, mapFn, ks[0].id).Ok?;
        Fail(mapped.msg)
      else
        var acc' := SetAtKeyPoint(acc, k, mapped.value);
        var r := TransformEach(m, ks[1..], acc'.value, mapFn);
        TransformEachStep(m, ks, acc, acc'.value, mapFn, r);
        r
  }

  lemma TransformEachStep(m: MagicPoint, ks: seq<Vector2>, acc: MagicPoint, acc': MagicPoint,
                          mapFn: (Coord, Vector2) -> Result<Coord>, r: Result<MagicPoint>)
    requires ks != []
    requires forall i :: 0 <= i < |ks| ==> ks[i].id in m.values.vals && Get(m.keyPointSet, ks[i].id) == Some(ks[i])
    requires MapAt(m, mapFn, ks[0].id).Ok?
    requires acc'.values.vals == acc.values.vals[ks[0].id := MapAt(m, mapFn, ks[0].id).value]
    requires acc'.values.keys == acc.values.keys + [ks[0].id]
    requires r.Ok? <==> forall i :: 0 <= i < |ks[1..]| ==> MapAt(m, mapFn, ks[1..][i].id).Ok?
    requires r.Ok? ==> r.value.values.keys == acc'.values.keys + Ids(ks[1..])
    requires r.Ok? ==> r.value.values.vals == acc'.values.vals + MappedEntries(m, mapFn, Ids(ks[1..]))
    ensures r.Ok? <==> forall i :: 0 <= i < |ks| ==> MapAt(m, mapFn, ks[i].id).Ok?
    ensures r.Ok? ==> r.value.values.keys == acc.values.keys + Ids(ks)
    ensures r.Ok? ==> r.value.values.vals == acc.values.vals + MappedEntries(m, mapFn, Ids(ks))
  {
    MapAtEach(m, mapFn, ks);
    if r.Ok? {
      IdsCons(ks);
      SeqAssoc(acc.values.keys, [ks[0].id], Ids(ks[1..]));
      MappedEntriesCons(m, mapFn, ks, acc.values.vals);
    }
  }

  lemma IdsCons(ks: seq<Vector2>)
    requires ks != []
    ensures Ids(ks) == [ks[0].id] + Ids(ks[1..])
  {
  }

  lemma SeqAssoc<T>(a: seq<T>, b: seq<T>, c: seq<T>)
    ensures (a + b) + c == a + (b + c)
  {
  }

  lemma MapAtEach(m: MagicPoint, mapFn: (Coord, Vector2) -> Result<Coord>, ks: seq<Vector2>)
    requires ks != []
    requires forall i :: 0 <= i < |ks| ==> ks[i].id in m.values.vals && Get(m.keyPointSet, ks[i].id).Some?
    ensures (forall i :: 0 <= i < |ks| ==> MapAt(m, mapFn, ks[i].id).Ok?) <==>
      MapAt(m, mapFn, ks[0].id).Ok? && forall i :: 0 <= i < |ks[1..]| ==> MapAt(m, mapFn, ks[1..][i].id).Ok?
  {
    assert forall i :: 1 <= i < |ks| ==> ks[i] == ks[1..][i - 1];
  }

  lemma MappedEntriesCons(m: MagicPoint, mapFn: (Coord, Vector2) -> Result<Coord>, ks: seq<Vector2>, acc: map<Id, Coord>)
    requires ks != []
    requires forall i :: 0 <= i < |ks| ==> ks[i].id in m.values.vals && Get(m.keyPointSet, ks[i].id).Some?
    requires forall i :: 0 <= i < |ks| ==> MapAt(m, mapFn, ks[i].id).Ok?
    ensures acc[ks[0].id := MapAt(m, mapFn, ks[0].id).value] + MappedEntries(m, mapFn, Ids(ks[1..]))
      == acc + MappedEntries(m, mapFn, Ids(ks))
  {
    var ids := Ids(ks);
    assert ids == [ks[0].id] + Ids(ks[1..]);
    var tail := MappedEntries(m, mapFn, Ids(ks[1..]));
    var all := MappedEntries(m, mapFn, ids);
    var k, v := ks[0].id, MapAt(m, mapFn, ks[0].id).value;
    assert all.Keys == tail.Keys + {k};
    assert forall j :: j in all ==> all[j] == tail[k := v][j];
    assert all == tail[k := v];
    UpdateThenMerge(acc, tail, k, v);
  }

  lemma UpdateThenMerge<K, V>(acc: map<K, V>, tail: map<K, V>, k: K, v: V)
    requires k in tail ==> tail[k] == v
    ensures acc[k := v] + tail == acc + tail[k := v]
  {
  }

  /** `transform(mapFn)`: a new object bound to the same set, defined at
      exactly the key points this one defines, in the same order, holding
      `mapFn(getAtKeyPoint(k), k)` at each. A throwing `mapFn` makes
      `transform` throw, and so does a stored id missing from the set. */
  function Transform(m: MagicPoint, mapFn: (Coord, Vector2) -> Result<Coord>): (r: Result<MagicPoint>)
    ensures r.Ok? <==> Consistent(m) && MapSucceeds(m, mapFn)
    ensures r.Ok? ==> r.value == Mapped(m, mapFn)
  {
    var d := DefinedKeyPoints(m);
    if d.Fail? then Fail(d.msg)
    else
      var defined := d.value;
      DefinedKeyPointsFacts(m, defined);
      var r := TransformEach(m, defined, NewMagicPoint(m.keyPointSet), mapFn);
      TransformEachCovers(m, defined, mapFn, r);
      r
  }

  lemma DefinedKeyPointsFacts(m: MagicPoint, defined: seq<Vector2>)
    requires DefinedKeyPoints(m) == Ok(defined)
    ensures Ids(defined) == m.values.keys
    ensures forall i :: 0 <= i < |defined| ==> defined[i].id in m.values.vals && Get(m.keyPointSet, defined[i].id) == Some(defined[i])
    ensures forall i, j :: 0 <= i < j < |defined| ==> defined[i].id != defined[j].id
  {
    assert forall i :: 0 <= i < |defined| ==> defined[i] in defined;
  }

  lemma TransformEachCovers(m: MagicPoint, defined: seq<Vector2>, mapFn: (Coord, Vector2) -> Result<Coord>, r: Result<MagicPoint>)
    requires Consistent(m)
    requires Ids(defined) == m.values.keys
    requires r.Ok? <==> forall i :: 0 <= i < |defined| ==> MapAt(m, mapFn, defined[i].id).Ok?
    requires r.Ok? ==> r.value.keyPointSet == m.keyPointSet
    requires r.Ok? ==> r.value.values.keys == [] + Ids(defined)
    requires r.Ok? ==> r.value.values.vals == map[] + MappedEntries(m, mapFn, Ids(defined))
    ensures r.Ok? <==> MapSucceeds(m, mapFn)
    ensures r.Ok? ==> r.value == Mapped(m, mapFn)
  {
    assert forall k :: k in m.values.vals ==> exists i :: 0 <= i < |defined| && defined[i].id == k;
    if r.Ok? {
      assert [] + Ids(defined) == Ids(defined);
      assert map[] + MappedEntries(m, mapFn, Ids(defined)) == MappedEntries(m, mapFn, Ids(defined));
    }
  }

  /** `other.getAtKeyPoint(k)` combined with a stored value. */
  function CombineWith(other: MagicPoint, op: (Coord, Coord) -> Coord): (Coord, Vector2) -> Result<Coord> {
    (value: Coord, keyPoint: Vector2) =>
      match GetAtKeyPoint(other, keyPoint)
      case Ok(o) => Ok(op(value, o))
      case Fail(e) => Fail(e)
  }

  /** `add(other)`: a new object on the same set defining the same key
      points; it fails when `other` cannot resolve one of them. */
  function Add(m: MagicPoint, other: MagicPoint): (r: Result<MagicPoint>)
    ensures r.Ok? <==> Consistent(m) && ResolvesAll(other, m)
    ensures r.Ok? ==> r.value.keyPointSet == m.keyPointSet && r.value.values.keys == m.values.keys
  {
    Transform(m, CombineWith(other, Plus))
  }

  /** `subtract(other)`, under the same conditions. */
  function Subtract(m: MagicPoint, other: MagicPoint): (r: Result<MagicPoint>)
    ensures r.Ok? <==> Consistent(m) && ResolvesAll(other, m)
    ensures r.Ok? ==> r.value.keyPointSet == m.keyPointSet && r.value.values.keys == m.values.keys
  {
    Transform(m, CombineWith(other, Minus))
  }

  /** `scale(amt)`: fails only when a stored id is missing from the set. */
  function Scale(m: MagicPoint, amt: real): (r: Result<MagicPoint>)
    ensures r.Ok? <==> Consistent(m)
    ensures r.Ok? ==> r.value.keyPointSet == m.keyPointSet && r.value.values.keys == m.values.keys
  {
    Transform(m, (value: Coord, keyPoint: Vector2) => Ok(Times(value, amt)))
  }

  /** Round trip: after `setAtKeyPoint(k, v)` succeeds, `getAtKeyPoint(k)`
      returns `v`; it succeeds exactly for members of the bound set. */
  lemma SetThenGet(m: MagicPoint, keyPoint: Vector2, value: Coord)
    ensures SetAtKeyPoint(m, keyPoint, value).Ok? <==> Has(m.keyPointSet, keyPoint)
    ensures SetAtKeyPoint(m, keyPoint, value).Ok? ==>
      GetAtKeyPoint(SetAtKeyPoint(m, keyPoint, value).value, keyPoint) == Ok(value)
  {
  }

  /** `other.getAtKeyPoint(k)` succeeds at every key point `m` defines. */
  ghost predicate ResolvesAll(other: MagicPoint, m: MagicPoint)
    requires Consistent(m)
  {
    forall k :: k in m.values.vals ==> GetAtKeyPoint(other, Get(m.keyPointSet, k).value).Ok?
  }

  /** `add(other)` combines pointwise with `other.getAtKeyPoint(k)` over this
      object's defined key points, and fails when `other` cannot resolve
      one of them. */
  lemma AddPointwise(m: MagicPoint, other: MagicPoint)
    ensures Add(m, other).Ok? <==> Consistent(m) && ResolvesAll(other, m)
    ensures Add(m, other).Ok? ==> Add(m, other).value.keyPointSet == m.keyPointSet
    ensures Add(m, other).Ok? ==> Add(m, other).value.values.keys == m.values.keys
    ensures Add(m, other).Ok? ==> forall k :: k in m.values.vals ==>
      Add(m, other).value.values.vals[k] == Plus(m.values.vals[k], GetAtKeyPoint(other, Get(m.keyPointSet, k).value).value)
  {
  }

  /** `subtract(other)`, the same with `Minus`. */
  lemma SubtractPointwise(m: MagicPoint, other: MagicPoint)
    ensures Subtract(m, other).Ok? <==> Consistent(m) && ResolvesAll(other, m)
    ensures Subtract(m, other).Ok? ==> Subtract(m, other).value.keyPointSet == m.keyPointSet
    ensures Subtract(m, other).Ok? ==> Subtract(m, other).value.values.keys == m.values.keys
    ensures Subtract(m, other).Ok? ==> forall k :: k in m.values.vals ==>
      Subtract(m, other).value.values.vals[k] == Minus(m.values.vals[k], GetAtKeyPoint(other, Get(m.keyPointSet, k).value).value)
  {
  }

  /** `scale(amt)` multiplies every defined value by `amt`; it fails only
      when a stored id is missing from the set. */
  lemma ScalePointwise(m: MagicPoint, amt: real)
    ensures Scale(m, amt).Ok? <==> Consistent(m)
    ensures Scale(m, amt).Ok? ==> Scale(m, amt).value.keyPointSet == m.keyPointSet
    ensures Scale(m, amt).Ok? ==> Scale(m, amt).value.values.keys == m.values.keys
    ensures Scale(m, amt).Ok? ==> forall k :: k in m.values.vals ==>
      Scale(m, amt).value.values.vals[k] == Times(m.values.vals[k], amt)
  {
  }

  /** An object on the same set with the same keys resolves every key
      point `m` defines, from its own stored values. */
  lemma SameKeysResolve(m: MagicPoint, other: MagicPoint)
    requires Consistent(other)
    requires other.keyPointSet == m.keyPointSet && other.values.keys == m.values.keys
    ensures Consistent(m) && ResolvesAll(other, m)
  {
    assert other.values.vals.Keys == m.values.vals.Keys;
    forall k | k in m.values.vals ensures GetAtKeyPoint(other, Get(m.keyPointSet, k).value).Ok? {
      var kp := Get(m.keyPointSet, k).value;
      assert kp.id == k && Has(other.keyPointSet, kp);
    }
  }

  /** `add(other)` succeeds once every stored id is in the set and `other`
      resolves each defined key point. */
  lemma AddSucceeds(m: MagicPoint, other: MagicPoint)
    requires Consistent(m) && ResolvesAll(other, m)
    ensures Add(m, other).Ok?
  {
    AddPointwise(m, other);
  }

  /** A successful `subtract` keeps the set and keys, and needed every
      stored id to be in the set. */
  lemma SubtractShape(m: MagicPoint, other: MagicPoint, r: MagicPoint)
    requires Subtract(m, other) == Ok(r)
    ensures Consistent(m) && Consistent(r)
    ensures r.keyPointSet == m.keyPointSet && r.values.keys == m.values.keys
  {
    SubtractPointwise(m, other);
    assert r.values.vals.Keys == m.values.vals.Keys;
  }

  /** `add(other)` at one key `m` defines. */
  lemma AddAt(m: MagicPoint, other: MagicPoint, r: MagicPoint, k: Id)
    requires Add(m, other) == Ok(r)
    requires k in m.values.vals
    ensures r.keyPointSet == m.keyPointSet && k in r.values.vals
    ensures r.values.vals[k] == Plus(m.values.vals[k], GetAtKeyPoint(other, Get(m.keyPointSet, k).value).value)
  {
    AddPointwise(m, other);
  }

  /** `subtract(other)` at one key `m` defines. */
  lemma SubtractAt(m: MagicPoint, other: MagicPoint, r: MagicPoint, k: Id)
    requires Subtract(m, other) == Ok(r)
    requires k in m.values.vals
    ensures r.keyPointSet == m.keyPointSet && k in r.values.vals
    ensures r.values.vals[k] == Minus(m.values.vals[k], GetAtKeyPoint(other, Get(m.keyPointSet, k).value).value)
  {
    SubtractPointwise(m, other);
  }

  /** `scale(amt)` at one key `m` defines. */
  lemma ScaleAt(m: MagicPoint, amt: real, r: MagicPoint, k: Id)
    requires Scale(m, amt) == Ok(r)
    requires k in m.values.vals
    ensures r.keyPointSet == m.keyPointSet && k in r.values.vals
    ensures r.values.vals[k] == Times(m.values.vals[k], amt)
  {
    ScalePointwise(m, amt);
  }

  /** Two objects on the same set with the same keys, in the same order,
      and the same value under each key, are the same. */
  lemma SameEntries(a: MagicPoint, b: MagicPoint)
    requires a.keyPointSet == b.keyPointSet && a.values.keys == b.values.keys
    requires forall k :: k in a.values.vals ==> a.values.vals[k] == b.values.vals[k]
    ensures a == b
  {
    assert a.values.vals.Keys == b.values.vals.Keys;
    assert a.values.vals == b.values.vals;
  }

  /** Subtracting `b` from `a.add(b)` succeeds, on the same set and keys. */
  lemma SubtractAfterAddSucceeds(a: MagicPoint, b: MagicPoint, c: MagicPoint)
    requires Add(a, b) == Ok(c)
    ensures Subtract(c, b).Ok?
    ensures Subtract(c, b).value.keyPointSet == a.keyPointSet
    ensures Subtract(c, b).value.values.keys == a.values.keys
  {
    AddPointwise(a, b);
    assert c.values.vals.Keys == a.values.vals.Keys;
    assert Consistent(c);
    assert ResolvesAll(b, c);
    SubtractPointwise(c, b);
  }

  /** ... and gives back the value `a` stores under `k`. */
  lemma SubtractAfterAddAt(a: MagicPoint, b: MagicPoint, c: MagicPoint, s: MagicPoint, k: Id)
    requires Add(a, b) == Ok(c) && Subtract(c, b) == Ok(s)
    requires k in a.values.vals
    ensures s.values.vals[k] == a.values.vals[k]
  {
    AddAt(a, b, c, k);
    SubtractAt(c, b, s, k);
    PlusThenMinus(a.values.vals[k], GetAtKeyPoint(b, Get(a.keyPointSet, k).value).value);
  }

  /** `a.add(b).subtract(b)` gives back `a`. */
  lemma {:induction false} SubtractUndoesAdd(a: MagicPoint, b: MagicPoint)
    requires Add(a, b).Ok?
    ensures Subtract(Add(a, b).value, b) == Ok(a)
  {
    var c := Add(a, b).value;
    SubtractAfterAddSucceeds(a, b, c);
    var s := Subtract(c, b).value;
    forall k | k in s.values.vals ensures s.values.vals[k] == a.values.vals[k] {
      SubtractAfterAddAt(a, b, c, s, k);
    }
    SameEntries(s, a);
  }

  /** Scaling by -1 twice succeeds, on the same set and keys. */
  lemma ScaleTwiceSucceeds(m: MagicPoint, c: MagicPoint)
    requires Scale(m, -1.0) == Ok(c)
    ensures Scale(c, -1.0).Ok?
    ensures Scale(c, -1.0).value.keyPointSet == m.keyPointSet
    ensures Scale(c, -1.0).value.values.keys == m.values.keys
  {
    ScalePointwise(m, -1.0);
    assert c.values.vals.Keys == m.values.vals.Keys;
    assert Consistent(c);
    ScalePointwise(c, -1.0);
  }

  /** ... and gives back the value stored under `k`. */
  lemma ScaleTwiceAt(m: MagicPoint, c: MagicPoint, s: MagicPoint, k: Id)
    requires Scale(m, -1.0) == Ok(c) && Scale(c, -1.0) == Ok(s)
    requires k in m.values.vals
    ensures s.values.vals[k] == m.values.vals[k]
  {
    ScaleAt(m, -1.0, c, k);
    ScaleAt(c, -1.0, s, k);
    NegateTwice(m.values.vals[k]);
  }

  /** Applying `scale(-1)` twice restores the object. */
  lemma {:induction false} ScaleTwiceByMinusOne(m: MagicPoint)
    requires Scale(m, -1.0).Ok?
    ensures Scale(Scale(m, -1.0).value, -1.0) == Ok(m)
  {
    var c := Scale(m, -1.0).value;
    ScaleTwiceSucceeds(m, c);
    var s := Scale(c, -1.0).value;
    forall k | k in s.values.vals ensures s.values.vals[k] == m.values.vals[k] {
      ScaleTwiceAt(m, c, s, k);
    }
    SameEntries(s, m);
  }
}
