/** `Scene` (src/document/Scene.tsx): the document. It has a size, the key
    point set every magic point is bound to, and its shapes in drawing
    order. */
module Scenes {
  import opened Wrappers
  import opened Vectors
  import opened KeyPointSets
  import MP = MagicPoints
  import Shapes
  import Serialize
  import Arrays

  datatype Scene = Scene(ref: Ref, id: Id, width: real, height: real, keyPointSet: KeyPointSet, shapes: seq<Shapes.Shape>)

  /** `new Scene()`: zero size, an empty key point set, no shapes. */
  function NewScene(alloc: Fresh, setAlloc: Fresh): (s: Scene)
    ensures s.ref == alloc.ref && s.id == alloc.id
    ensures s.width == 0.0 && s.height == 0.0 && s.shapes == []
    ensures KeyPoints(s.keyPointSet) == []
  {
    Scene(alloc.ref, alloc.id, 0.0, 0.0, NewKeyPointSet(setAlloc), [])
  }

  /** The `i`-th corner key point of a `w` by `h` scene: a quarter of the
      way in from each edge, clockwise from the top left. */
  function Corner(w: real, h: real, i: nat): (c: Coord)
    requires i < 4
  {
    Coord(w * (if i == 1 || i == 2 then 0.75 else 0.25), h * (if i < 2 then 0.25 else 0.75))
  }

  /** `init(width, height)`: the new size and a new key point set holding
      the four corner points; the shapes are kept. `setAlloc` and `corners`
      stand for the new objects' identities. */
  function Init(s: Scene, width: real, height: real, setAlloc: Fresh, corners: seq<Fresh>): (r: Scene)
    requires |corners| == 4
    ensures r.ref == s.ref && r.id == s.id && r.shapes == s.shapes
    ensures r.width == width && r.height == height
    ensures r.keyPointSet.ref == setAlloc.ref && r.keyPointSet.id == setAlloc.id
  {
    var k := NewKeyPointSet(setAlloc);
    var points := CornerPoints(width, height, corners);
    AddAllKeepsIdentity(k, points);
    s.(width := width, height := height, keyPointSet := AddAll(k, points))
  }

  /** The four points `init` adds, in order. */
  function CornerPoints(width: real, height: real, corners: seq<Fresh>): (ps: seq<Vector2>)
    requires |corners| == 4
  {
    [NewVector2(corners[0], width * 0.25, height * 0.25),
     NewVector2(corners[1], width * 0.75, height * 0.25),
     NewVector2(corners[2], width * 0.75, height * 0.75),
     NewVector2(corners[3], width * 0.25, height * 0.75)]
  }

  /** Each of the points is its corner, under the identity given for it. */
  lemma CornerPointsAreCorners(width: real, height: real, corners: seq<Fresh>)
    requires |corners| == 4
    ensures var ps := CornerPoints(width, height, corners);
      |ps| == 4 &&
      forall i :: 0 <= i < 4 ==>
        ps[i].At() == Corner(width, height, i) && ps[i].ref == corners[i].ref && ps[i].id == corners[i].id
  {
  }

  /** With distinct identities for the four new points, the new set lists
      exactly the four corners, in order. */
  lemma InitCorners(s: Scene, width: real, height: real, setAlloc: Fresh, corners: seq<Fresh>)
    requires |corners| == 4
    requires forall i, j :: 0 <= i < j < 4 ==> corners[i].id != corners[j].id
    ensures var ks := KeyPoints(Init(s, width, height, setAlloc, corners).keyPointSet);
      |ks| == 4 &&
      forall i :: 0 <= i < 4 ==>
        ks[i].At() == Corner(width, height, i) && ks[i].ref == corners[i].ref && ks[i].id == corners[i].id
  {
    var k := NewKeyPointSet(setAlloc);
    var points := CornerPoints(width, height, corners);
    assert Init(s, width, height, setAlloc, corners).keyPointSet == AddAll(k, points);
    assert KeyPoints(AddAll(k, points)) == points by {
      AddAllListing(k, points);
      assert KeyPoints(k) + points == points;
    }
    CornerPointsAreCorners(width, height, corners);
  }

  /** `addShape(shape)`: appended on top; the others keep their order. */
  function AddShape(s: Scene, shape: Shapes.Shape): (r: Scene)
    ensures |r.shapes| == |s.shapes| + 1 && r.shapes[|s.shapes|] == shape
    ensures forall i :: 0 <= i < |s.shapes| ==> r.shapes[i] == s.shapes[i]
    ensures r.ref == s.ref && r.id == s.id
    ensures r.keyPointSet == s.keyPointSet && r.width == s.width && r.height == s.height
  {
    s.(shapes := s.shapes + [shape])
  }

  /** A shape not yet in the scene is found on top after it is added, and
      the scene holds one more copy of it and nothing else new. */
  lemma AddShapeIsOnTop(s: Scene, shape: Shapes.Shape)
    requires shape !in s.shapes
    ensures Arrays.IndexOf(AddShape(s, shape).shapes, shape) == |s.shapes|
    ensures multiset(AddShape(s, shape).shapes) == multiset(s.shapes) + multiset{shape}
  {
    assert AddShape(s, shape).shapes == s.shapes + [shape];
  }

  /** `createMagicPointThingy()`: a magic point bound to the scene's key
      point set with nothing defined. */
  function CreateMagicPoint(s: Scene): (m: MP.MagicPoint)
    ensures m.keyPointSet == s.keyPointSet
    ensures MP.DefinedKeyPoints(m) == Ok([])
  {
    MP.NewMagicPoint(s.keyPointSet)
  }

  /** `Scene.deserialize(object)`: reads the table back and fails unless the
      root is an instance of the scene class. */
  function Deserialize(reg: Serialize.Registry, sceneClass: Serialize.Class, ser: Serialize.Serialization): (r: Result<Serialize.Obj<string>>)
    ensures r.Ok? <==> Serialize.Deserialize(reg, ser).Ok? && Serialize.InstanceOf(Serialize.Deserialize(reg, ser).value.0.cls, sceneClass)
    ensures r.Ok? ==> r.value == Serialize.Deserialize(reg, ser).value.0
    ensures Serialize.Deserialize(reg, ser).Ok? && !r.Ok? ==> r == Fail("deserialized object is not Scene")
  {
    var read :- Serialize.Deserialize(reg, ser);
    if !Serialize.InstanceOf(read.0.cls, sceneClass) then Fail("deserialized object is not Scene")
    else Ok(read.0)
  }
}
