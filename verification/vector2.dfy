/** `Vector2` (src/lib/Vector2.js): a mutable 2-D point object with a
    generated id. Coordinates are exact reals. Distances are compared as
    squares: `distanceTo` is the square root of `DistanceSq`, and the square
    root is monotone, so every `<` between distances is the same `<`
    between squared distances. */
module Vectors {
  import opened Wrappers

  /** The address of a JavaScript object: `a === b` is `a.ref == b.ref`. */
  type Ref = nat

  /** A `genId` string. */
  type Id = string

  /** The identity a newly allocated object receives: a fresh address and a
      fresh `genId` value. The clock-based generator is not modelled. */
  datatype Fresh = Fresh(ref: Ref, id: Id)

  /** Plain coordinates, the data part of a `Vector2`. */
  datatype Coord = Coord(x: real, y: real)

  datatype Vector2 = Vector2(ref: Ref, id: Id, x: real, y: real) {
    function At(): Coord {
      Coord(x, y)
    }
  }

  function Plus(a: Coord, b: Coord): Coord {
    Coord(a.x + b.x, a.y + b.y)
  }

  function Minus(a: Coord, b: Coord): Coord {
    Coord(a.x - b.x, a.y - b.y)
  }

  function Times(a: Coord, amt: real): Coord {
    Coord(a.x * amt, a.y * amt)
  }

  /** The square of `distanceTo`. */
  function DistanceSq(a: Coord, b: Coord): real {
    var dx := a.x - b.x;
    var dy := a.y - b.y;
    dx * dx + dy * dy
  }

  /** `new Vector2(x, y)`. */
  function NewVector2(alloc: Fresh, x: real, y: real): (v: Vector2)
    ensures v.ref == alloc.ref && v.id == alloc.id
    ensures v.At() == Coord(x, y)
  {
    Vector2(alloc.ref, alloc.id, x, y)
  }

  /** `clone()`: the coordinates under a fresh identity. */
  function Clone(v: Vector2, alloc: Fresh): (r: Vector2)
    ensures r.ref == alloc.ref && r.id == alloc.id
    ensures r.At() == v.At()
  {
    NewVector2(alloc, v.x, v.y)
  }

  /** `setXY(x, y)`. */
  function SetXY(v: Vector2, x: real, y: real): (r: Vector2)
    ensures r.ref == v.ref && r.id == v.id
    ensures r.At() == Coord(x, y)
  {
    v.(x := x, y := y)
  }

  /** `set(other)`. */
  function Set(v: Vector2, other: Vector2): (r: Vector2)
    ensures r.ref == v.ref && r.id == v.id
    ensures r.At() == other.At()
  {
    v.(x := other.x, y := other.y)
  }

  /** `add`, `subtract` and `scale` allocate their result. */
  function Add(v: Vector2, other: Vector2, alloc: Fresh): (r: Vector2)
    ensures r.ref == alloc.ref && r.id == alloc.id
    ensures Minus(r.At(), other.At()) == v.At()
  {
    var c := Plus(v.At(), other.At());
    NewVector2(alloc, c.x, c.y)
  }

  function Subtract(v: Vector2, other: Vector2, alloc: Fresh): (r: Vector2)
    ensures r.ref == alloc.ref && r.id == alloc.id
    ensures Plus(r.At(), other.At()) == v.At()
  {
    var c := Minus(v.At(), other.At());
    NewVector2(alloc, c.x, c.y)
  }

  function Scale(v: Vector2, amt: real, alloc: Fresh): (r: Vector2)
    ensures r.ref == alloc.ref && r.id == alloc.id
    ensures amt != 0.0 ==> Times(r.At(), 1.0 / amt) == v.At()
    ensures amt == 0.0 ==> r.At() == Coord(0.0, 0.0)
  {
    var c := Times(v.At(), amt);
    NewVector2(alloc, c.x, c.y)
  }

  /** Candidate `k` is the one `findNearest` settles on: no candidate is
      strictly closer, and every earlier one is strictly farther. */
  ghost predicate IsNearest(target: Coord, others: seq<Vector2>, k: int) {
    && 0 <= k < |others|
    && (forall j :: 0 <= j < |others| ==> DistanceSq(target, others[k].At()) <= DistanceSq(target, others[j].At()))
    && (forall j :: 0 <= j < k ==> DistanceSq(target, others[k].At()) < DistanceSq(target, others[j].At()))
  }

  /** The `forEach` loop of `findNearest` from position `i`, `best` being the
      index held in `nearest` (`None` while `nearestDistance` is `Infinity`). */
  function NearestFrom(target: Coord, others: seq<Vector2>, i: nat, best: Option<nat>): (r: Option<nat>)
    requires i <= |others|
    requires best.None? <==> i == 0
    requires best.Some? ==> IsNearest(target, others[..i], best.value)
    ensures r.None? <==> |others| == 0
    ensures r.Some? ==> IsNearest(target, others, r.value)
    decreases |others| - i
  {
    if i == |others| then
      assert others[..i] == others;
      best
    else
      var d := DistanceSq(target, others[i].At());
      if best.None? || d < DistanceSq(target, others[best.value].At()) then
        NearestFrom(target, others, i + 1, Some(i))
      else
        NearestFrom(target, others, i + 1, best)
  }

  /** The index of the candidate `findNearest` returns. */
  function NearestIndex(target: Coord, others: seq<Vector2>): (r: Option<nat>)
    ensures r.None? <==> |others| == 0
    ensures r.Some? ==> IsNearest(target, others, r.value)
  {
    NearestFrom(target, others, 0, None)
  }

  /** `target.findNearest(others)`. */
  function FindNearest(target: Vector2, others: seq<Vector2>): (r: Option<Vector2>)
    ensures r.None? <==> |others| == 0
    ensures r.Some? ==> r.value in others
    ensures r.Some? ==> forall j :: 0 <= j < |others| ==>
      DistanceSq(target.At(), r.value.At()) <= DistanceSq(target.At(), others[j].At())
  {
    match NearestIndex(target.At(), others)
    case None => None
    case Some(k) => Some(others[k])
  }

  /** No candidate at least as close as the nearest one comes before it. */
  lemma NearestPrecedesEveryMinimum(target: Coord, others: seq<Vector2>, k: int, j: int)
    requires IsNearest(target, others, k)
    requires 0 <= j < |others|
    requires DistanceSq(target, others[j].At()) <= DistanceSq(target, others[k].At())
    ensures k <= j
  {
  }

  /** Ties go to the earliest minimal candidate: the nearest index is unique. */
  lemma NearestIsUnique(target: Coord, others: seq<Vector2>, k1: int, k2: int)
    requires IsNearest(target, others, k1) && IsNearest(target, others, k2)
    ensures k1 == k2
  {
    NearestPrecedesEveryMinimum(target, others, k1, k2);
    NearestPrecedesEveryMinimum(target, others, k2, k1);
  }

  /** `findNearest` returns the first candidate at minimal distance. */
  lemma FindNearestPicksFirstMinimum(target: Vector2, others: seq<Vector2>, k: int)
    requires 0 <= k < |others|
    requires forall j :: 0 <= j < |others| ==> DistanceSq(target.At(), others[k].At()) <= DistanceSq(target.At(), others[j].At())
    requires forall j :: 0 <= j < k ==> DistanceSq(target.At(), others[k].At()) < DistanceSq(target.At(), others[j].At())
    ensures FindNearest(target, others) == Some(others[k])
  {
    var r := NearestIndex(target.At(), others);
    NearestIsUnique(target.At(), others, r.value, k);
  }

  /** `distanceTo` is symmetric, non-negative, and zero from a point to itself. */
  lemma DistanceProperties(a: Coord, b: Coord)
    ensures DistanceSq(a, b) == DistanceSq(b, a)
    ensures DistanceSq(a, b) >= 0.0
    ensures DistanceSq(a, a) == 0.0
  {
    var dx, dy := a.x - b.x, a.y - b.y;
    assert dx * dx >= 0.0 && dy * dy >= 0.0;
  }

  /** `a.add(b).subtract(b)` has the coordinates of `a`. */
  lemma AddSubtractRoundTrip(a: Vector2, b: Vector2, f1: Fresh, f2: Fresh)
    ensures Subtract(Add(a, b, f1), b, f2).At() == a.At()
  {
  }

  /** Adding then subtracting the same offset gives the coordinates back. */
  lemma PlusThenMinus(c: Coord, d: Coord)
    ensures Minus(Plus(c, d), d) == c
  {
  }

  /** Adding back an offset that was subtracted gives the coordinates back. */
  lemma OffsetThenRestore(c: Coord, d: Coord)
    ensures Plus(d, Minus(c, d)) == c
  {
  }

  /** Multiplying by -1 twice gives the coordinates back. */
  lemma NegateTwice(c: Coord)
    ensures Times(Times(c, -1.0), -1.0) == c
  {
  }

  /** `scale(-1)` negates both coordinates and `scale(1)` keeps them. */
  lemma ScaleByUnits(v: Vector2, alloc: Fresh)
    ensures Scale(v, -1.0, alloc).At() == Coord(-v.x, -v.y)
    ensures Scale(v, 1.0, alloc).At() == v.At()
  {
  }

  /** `set`/`setXY` change the coordinates only; `clone` copies them under a
      new identity, and setting a point from its clone restores it. */
  lemma MutatorsKeepIdentity(v: Vector2, other: Vector2, x: real, y: real, alloc: Fresh)
    requires alloc.ref != v.ref
    ensures SetXY(v, x, y).ref == v.ref && SetXY(v, x, y).id == v.id && SetXY(v, x, y).At() == Coord(x, y)
    ensures Set(v, other).ref == v.ref && Set(v, other).id == v.id && Set(v, other).At() == other.At()
    ensures Clone(v, alloc).At() == v.At() && Clone(v, alloc).ref != v.ref
    ensures Set(SetXY(v, x, y), Clone(v, alloc)) == v
  {
  }
}
