/** `Editor` (src/editor/Editor.tsx) and its `SelectionItem`
    (src/editor/SelectionItem.tsx): the current tool, the scene being
    edited and the selection. */
module Editors {
  import opened Vectors
  import Arrays
  import SP = ShapePoints
  import Shapes
  import Scenes
  import KeyPointSets

  /** `EditorTool`. */
  datatype Tool = Select | Pen | KeyPoint

  /** Which of a shape point's two control points is meant. */
  datatype ControlPointKind = Leading | Following

  /** `SelectionItem`: a shape point within its shape, one of a shape
      point's control points, or a whole shape. An item holds a snapshot
      of those values, and items are compared with `==`, which also
      compares the `ref` that lodash `isEqual` ignores. */
  datatype SelectionItem =
    | PointItem(point: SP.ShapePoint, inShape: Shapes.Shape)
    | ControlPointItem(point: SP.ShapePoint, inShape: Shapes.Shape, controlPoint: ControlPointKind)
    | ShapeItem(shape: Shapes.Shape)

  datatype Editor = Editor(tool: Tool, scene: Scenes.Scene, selection: seq<SelectionItem>)

  /** `new Editor(scene)`: the select tool and nothing selected. */
  function NewEditor(scene: Scenes.Scene): (e: Editor)
    ensures e.tool == Select && e.selection == [] && e.scene == scene
  {
    Editor(Select, scene, [])
  }

  /** `setTool(tool)`. */
  function SetTool(e: Editor, tool: Tool): (r: Editor)
    ensures r.tool == tool && r.scene == e.scene && r.selection == e.selection
  {
    e.(tool := tool)
  }

  /** `replaceSelection(newSelection)`. */
  function ReplaceSelection(e: Editor, newSelection: seq<SelectionItem>): (r: Editor)
    ensures r.selection == newSelection && r.tool == e.tool && r.scene == e.scene
  {
    e.(selection := newSelection)
  }

  /** `clearSelection()`. */
  function ClearSelection(e: Editor): (r: Editor)
    ensures r.selection == [] && r.tool == e.tool && r.scene == e.scene
  {
    ReplaceSelection(e, [])
  }

  /** Setting the tool twice keeps the last; replacing the selection keeps
      only the newest; clearing is replacing with nothing. */
  lemma LastWriteWins(e: Editor, t1: Tool, t2: Tool, s1: seq<SelectionItem>, s2: seq<SelectionItem>)
    ensures SetTool(SetTool(e, t1), t2) == SetTool(e, t2)
    ensures ReplaceSelection(ReplaceSelection(e, s1), s2) == ReplaceSelection(e, s2)
    ensures ClearSelection(ReplaceSelection(e, s1)) == ClearSelection(e)
  {
  }

  /** `toggleSelected(item)` as written. `findIndex` gives -1 for an item
      not selected, and the test `index != null` holds for every number, so
      the `splice` always runs and the `push` never does: an absent item
      removes the last selected item instead of being added. */
  function ToggleSelectedAsWritten(e: Editor, item: SelectionItem): (r: Editor)
    ensures r.tool == e.tool && r.scene == e.scene
    ensures item !in e.selection ==> |r.selection| == if e.selection == [] then 0 else |e.selection| - 1
  {
    var index := Arrays.IndexOf(e.selection, item);
    e.(selection := Arrays.SpliceOne(e.selection, index))
  }

  /** Toggling an item that is not selected drops the last selected item
      and never adds the item. */
  lemma ToggleAbsentDropsLast(e: Editor, item: SelectionItem)
    requires item !in e.selection && e.selection != []
    ensures ToggleSelectedAsWritten(e, item).selection == e.selection[..|e.selection| - 1]
    ensures item !in ToggleSelectedAsWritten(e, item).selection
  {
    Arrays.SpliceMinusOneDropsLast(e.selection);
  }

  /** A concrete case: with one shape selected, toggling another shape
      leaves nothing selected. */
  lemma ToggleAsWrittenCounterexample(scene: Scenes.Scene, a: Shapes.Shape, b: Shapes.Shape)
    requires a != b
    ensures ToggleSelectedAsWritten(Editor(Select, scene, [ShapeItem(a)]), ShapeItem(b)).selection == []
  {
    ToggleAbsentDropsLast(Editor(Select, scene, [ShapeItem(a)]), ShapeItem(b));
  }

  /** Two shape points made at the same spot have different ids, so
      selecting the second is a different item: toggling it with a point
      and a shape selected drops the shape, as `splice(-1, 1)` does. */
  lemma ToggleSecondPointDropsLast(scene: Scenes.Scene, p: SP.ShapePoint, p2: SP.ShapePoint, s: Shapes.Shape, t: Shapes.Shape)
    requires p.id != p2.id
    ensures ToggleSelectedAsWritten(Editor(Select, scene, [PointItem(p, s), ShapeItem(t)]), PointItem(p2, s)).selection ==
      [PointItem(p, s)]
  {
    var e := Editor(Select, scene, [PointItem(p, s), ShapeItem(t)]);
    assert PointItem(p2, s) !in e.selection;
    ToggleAbsentDropsLast(e, PointItem(p2, s));
  }

  /** `toggleSelected(item)` as evidently intended: remove the first equal
      item if there is one, and otherwise add the item at the end. */
  function ToggleSelected(e: Editor, item: SelectionItem): (r: Editor)
    ensures r.tool == e.tool && r.scene == e.scene
  {
    var index := Arrays.IndexOf(e.selection, item);
    if index != -1 then e.(selection := Arrays.SpliceOne(e.selection, index))
    else e.(selection := e.selection + [item])
  }

  /** Toggling adds one copy of an absent item and removes one copy of a
      present item; nothing else in the selection changes. */
  lemma ToggleSelectedCounts(e: Editor, item: SelectionItem)
    ensures item !in e.selection ==> multiset(ToggleSelected(e, item).selection) == multiset(e.selection) + multiset{item}
    ensures item in e.selection ==> multiset(ToggleSelected(e, item).selection) == multiset(e.selection) - multiset{item}
    ensures item !in e.selection ==> item in ToggleSelected(e, item).selection
  {
    var i := Arrays.IndexOf(e.selection, item);
    if i != -1 {
      Arrays.SpliceOneKeepsTheRest(e.selection, i);
    }
  }

  /** Toggling an unselected item twice gives back the selection it
      started from. */
  lemma ToggleTwiceRestores(e: Editor, item: SelectionItem)
    requires item !in e.selection
    ensures ToggleSelected(ToggleSelected(e, item), item) == e
  {
    var once := ToggleSelected(e, item).selection;
    assert once == e.selection + [item];
    assert Arrays.IndexOf(once, item) == |e.selection| by {
      assert once[|e.selection|] == item && once[..|e.selection|] == e.selection;
    }
    assert once[..|e.selection|] + once[|e.selection| + 1..] == e.selection;
  }

  /** For an item that is selected, the handler as written does what was
      intended. */
  lemma ToggleSelectedAgreesWhenPresent(e: Editor, item: SelectionItem)
    requires item in e.selection
    ensures ToggleSelectedAsWritten(e, item) == ToggleSelected(e, item)
  {
  }

  /** `replaceDocumentWithNew(width, height)`: a new scene, initialised to
      the size. The identities of the new objects are parameters. */
  function ReplaceDocumentWithNew(e: Editor, width: real, height: real, sceneAlloc: Fresh, setAlloc: Fresh,
                                 initSetAlloc: Fresh, corners: seq<Fresh>): (r: Editor)
    requires |corners| == 4
    ensures r.tool == e.tool && r.selection == e.selection
    ensures r.scene.width == width && r.scene.height == height && r.scene.shapes == []
    ensures r.scene.ref == sceneAlloc.ref
  {
    e.(scene := Scenes.Init(Scenes.NewScene(sceneAlloc, setAlloc), width, height, initSetAlloc, corners))
  }

  /** The default size, 200 by 100. */
  function ReplaceDocumentWithDefault(e: Editor, sceneAlloc: Fresh, setAlloc: Fresh, initSetAlloc: Fresh, corners: seq<Fresh>): (r: Editor)
    requires |corners| == 4
    ensures r.scene.width == 200.0 && r.scene.height == 100.0
  {
    ReplaceDocumentWithNew(e, 200.0, 100.0, sceneAlloc, setAlloc, initSetAlloc, corners)
  }

  /** The new document holds no shapes and exactly the four corner key
      points of its size. */
  lemma NewDocumentHasFourCorners(e: Editor, width: real, height: real, sceneAlloc: Fresh, setAlloc: Fresh,
                                  initSetAlloc: Fresh, corners: seq<Fresh>)
    requires |corners| == 4
    requires forall i, j :: 0 <= i < j < 4 ==> corners[i].id != corners[j].id
    ensures var s := ReplaceDocumentWithNew(e, width, height, sceneAlloc, setAlloc, initSetAlloc, corners).scene;
      s.shapes == [] &&
      |KeyPointSets.KeyPoints(s.keyPointSet)| == 4 &&
      forall i :: 0 <= i < 4 ==> KeyPointSets.KeyPoints(s.keyPointSet)[i].At() == Scenes.Corner(width, height, i)
  {
    Scenes.InitCorners(Scenes.NewScene(sceneAlloc, setAlloc), width, height, initSetAlloc, corners);
  }
}
