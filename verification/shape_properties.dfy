/** The list and field logic of the shape properties panel
    (src/components/ui/ShapeProperties.tsx): moving a shape one step up or
    down the scene's drawing order, and setting its stroke width. The
    handlers find the shape with `indexOf`, which compares by identity.
    `Arrays.IndexOf` compares structurally. A shape carries its `ref`, so
    structural equality implies the same object. The handlers are passed
    one of the scene's own shapes, so both comparisons find the same index. */
module ShapeProperties {
  import opened Wrappers
  import Arrays
  import Shapes

  /** `onSendBackward`: swaps the shape with the one below it, unless it
      is first or not in the list. */
  function SendBackward(shapes: seq<Shapes.Shape>, shape: Shapes.Shape): (r: seq<Shapes.Shape>)
    ensures |r| == |shapes|
    ensures multiset(r) == multiset(shapes)
  {
    var i := Arrays.IndexOf(shapes, shape);
    if i > 0 then
      Arrays.SwapIsPermutation(shapes, i, i - 1);
      Arrays.Swap(shapes, i, i - 1)
    else shapes
  }

  /** `onBringForward` as written, on a list that can hold `undefined`
      (`None`). The guard `shapeIndex < allShapes.length` holds for every
      index `indexOf` finds, so the last shape passes it too: its slot
      receives `allShapes[length]`, which is `undefined`, and the shape is
      written one past the end. */
  function BringForwardAsWritten(shapes: seq<Shapes.Shape>, shape: Shapes.Shape): (r: seq<Option<Shapes.Shape>>)
    ensures shapes != [] && Arrays.IndexOf(shapes, shape) == |shapes| - 1 ==> |r| == |shapes| + 1
    ensures shapes == [] || Arrays.IndexOf(shapes, shape) != |shapes| - 1 ==> |r| == |shapes|
  {
    var all := seq(|shapes|, k requires 0 <= k < |shapes| => Some(shapes[k]));
    var i := Arrays.IndexOf(shapes, shape);
    if i != -1 && i < |shapes| then
      var swapShape := if i + 1 < |all| then all[i + 1] else None;
      var moved := all[i := swapShape];
      if i + 1 < |moved| then moved[i + 1 := Some(shape)] else moved + [Some(shape)]
    else all
  }

  /** On the last shape the list grows by one and the shape's old slot
      becomes `undefined`. */
  lemma BringForwardLastLeavesHole(shapes: seq<Shapes.Shape>, shape: Shapes.Shape)
    requires shapes != [] && Arrays.IndexOf(shapes, shape) == |shapes| - 1
    ensures var r := BringForwardAsWritten(shapes, shape);
      |r| == |shapes| + 1 && r[|shapes| - 1] == None && r[|shapes|] == Some(shape)
  {
  }

  /** A concrete case: a scene with one shape, brought forward. */
  lemma BringForwardAsWrittenCounterexample(a: Shapes.Shape)
    ensures BringForwardAsWritten([a], a) == [None, Some(a)]
  {
    BringForwardLastLeavesHole([a], a);
  }

  /** `onBringForward` as evidently intended (its button is disabled on
      the last shape): swaps the shape with the one above it, unless it is
      last or not in the list. */
  function BringForward(shapes: seq<Shapes.Shape>, shape: Shapes.Shape): (r: seq<Shapes.Shape>)
    ensures |r| == |shapes|
    ensures multiset(r) == multiset(shapes)
  {
    var i := Arrays.IndexOf(shapes, shape);
    if i != -1 && i < |shapes| - 1 then
      Arrays.SwapIsPermutation(shapes, i, i + 1);
      Arrays.Swap(shapes, i, i + 1)
    else shapes
  }

  /** Where the shape is not last, the handler as written does what was
      intended. */
  lemma BringForwardAgreesBeforeLast(shapes: seq<Shapes.Shape>, shape: Shapes.Shape)
    requires shapes == [] || Arrays.IndexOf(shapes, shape) != |shapes| - 1
    ensures BringForwardAsWritten(shapes, shape) ==
      seq(|shapes|, k requires 0 <= k < |shapes| => Some(BringForward(shapes, shape)[k]))
  {
    var r := BringForward(shapes, shape);
    var w := BringForwardAsWritten(shapes, shape);
    forall k | 0 <= k < |shapes| ensures w[k] == Some(r[k]) {
    }
  }

  /** Bringing forward moves the shape up one place and the shape above
      it down one place; every other position is unchanged. On the last
      shape, or one not in the list, nothing changes. */
  lemma BringForwardMovesOneStep(shapes: seq<Shapes.Shape>, shape: Shapes.Shape)
    ensures var i := Arrays.IndexOf(shapes, shape);
      var r := BringForward(shapes, shape);
      0 <= i < |shapes| - 1 ==>
        r[i + 1] == shape && r[i] == shapes[i + 1] &&
        forall k :: 0 <= k < |shapes| && k != i && k != i + 1 ==> r[k] == shapes[k]
    ensures shape !in shapes ==> BringForward(shapes, shape) == shapes
    ensures shapes != [] && shapes[|shapes| - 1] == shape && shape !in shapes[..|shapes| - 1] ==>
      BringForward(shapes, shape) == shapes
  {
  }

  /** Sending backward moves the shape down one place and the shape below
      it up one place; every other position is unchanged. On the first
      shape, or one not in the list, nothing changes. */
  lemma SendBackwardMovesOneStep(shapes: seq<Shapes.Shape>, shape: Shapes.Shape)
    ensures var i := Arrays.IndexOf(shapes, shape);
      var r := SendBackward(shapes, shape);
      0 < i ==>
        r[i - 1] == shape && r[i] == shapes[i - 1] &&
        forall k :: 0 <= k < |shapes| && k != i && k != i - 1 ==> r[k] == shapes[k]
    ensures shape !in shapes ==> SendBackward(shapes, shape) == shapes
    ensures shapes != [] && shapes[0] == shape ==> SendBackward(shapes, shape) == shapes
  {
  }

  /** In a list of distinct shapes, sending a shape backward undoes
      bringing it forward, unless it was already last. */
  lemma {:induction false} SendBackwardUndoesBringForward(shapes: seq<Shapes.Shape>, shape: Shapes.Shape)
    requires forall i, j :: 0 <= i < j < |shapes| ==> shapes[i] != shapes[j]
    requires Arrays.IndexOf(shapes, shape) < |shapes| - 1
    ensures SendBackward(BringForward(shapes, shape), shape) == shapes
  {
    var i := Arrays.IndexOf(shapes, shape);
    if i != -1 {
      var r := BringForward(shapes, shape);
      assert r == Arrays.Swap(shapes, i, i + 1);
      FoundAt(r, shape, i + 1);
      Arrays.SwapIsPermutation(shapes, i, i + 1);
      assert Arrays.Swap(r, i + 1, i) == Arrays.Swap(r, i, i + 1);
    }
  }

  /** In a list of distinct shapes, bringing a shape forward undoes
      sending it backward, unless it was already first. */
  lemma {:induction false} BringForwardUndoesSendBackward(shapes: seq<Shapes.Shape>, shape: Shapes.Shape)
    requires forall i, j :: 0 <= i < j < |shapes| ==> shapes[i] != shapes[j]
    requires Arrays.IndexOf(shapes, shape) != 0
    ensures BringForward(SendBackward(shapes, shape), shape) == shapes
  {
    var i := Arrays.IndexOf(shapes, shape);
    if i != -1 {
      var r := SendBackward(shapes, shape);
      assert r == Arrays.Swap(shapes, i, i - 1);
      FoundAt(r, shape, i - 1);
      Arrays.SwapIsPermutation(shapes, i, i - 1);
      assert Arrays.Swap(r, i - 1, i) == Arrays.Swap(r, i, i - 1);
    }
  }

  /** In a list of distinct elements, the one at `k` is found at `k`. */
  lemma FoundAt<T>(s: seq<T>, x: T, k: nat)
    requires forall i, j :: 0 <= i < j < |s| ==> s[i] != s[j]
    requires k < |s| && s[k] == x
    ensures Arrays.IndexOf(s, x) == k
  {
  }

  /** `onChangeStrokeWidth`: the parsed input, `None` standing for `NaN`,
      becomes the stroke width; `NaN` leaves the style as it was. */
  function ChangeStrokeWidth(style: Shapes.ShapeStyle, parsed: Option<real>): (r: Shapes.ShapeStyle)
    ensures parsed.None? ==> r == style
    ensures parsed.Some? ==> r.strokeWidth == parsed.value
    ensures r == style.(strokeWidth := r.strokeWidth)
  {
    match parsed
    case None => style
    case Some(w) => style.(strokeWidth := w)
  }

  /** Only the last accepted value counts, and re-entering the current
      width changes nothing. */
  lemma StrokeWidthLastWins(style: Shapes.ShapeStyle, w1: real, parsed: Option<real>)
    ensures ChangeStrokeWidth(ChangeStrokeWidth(style, Some(w1)), parsed) ==
      (if parsed.Some? then ChangeStrokeWidth(style, parsed) else ChangeStrokeWidth(style, Some(w1)))
    ensures ChangeStrokeWidth(style, Some(style.strokeWidth)) == style
  {
  }
}
