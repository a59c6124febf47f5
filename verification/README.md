# Drag Animate's magic point rig, in Dafny

Drag Animate is a browser editor for animated vector drawings. A **scene**
holds a set of **key points** and a list of **shapes**. Every point of a
shape is a **magic point**: it stores a value at some of the scene's key
points, and where it stores none it falls back to the value at the nearest
key point that has one. Each **shape point** has an origin and optional
leading and following Bézier control points. These are kept relative to
the origin and can be mirrored. A shape becomes a canvas path of
move-to, line, quadratic, cubic and close commands.

Documents are saved through a small object-graph **serializer**. It
registers models by class and writes each object once under a scoped id
`Name#id`. On reading, it rebuilds the graph and keeps sharing intact.

The **viewport** maps scene coordinates to screen coordinates. It can zoom
about a point, pan, and fit the scene to the window. The **editor** keeps
the current tool and the selection. The **shape properties panel**
reorders shapes and sets the stroke width.

The model is functional:
- Every mutator is a function from the old state to the new one.
- Object identity (`===`) is an explicit `ref` on the objects whose
  identity the program compares: vectors, key point sets, shapes, styles and
  scenes. These, and shape points, also carry their `genId` string as an
  explicit `id`. A new identity is a parameter (`Vectors.Fresh`) wherever
  the program allocates one of them.
- Magic points and the values they store carry no identity. Only their
  contents are modelled, so `==` on them is structural.
- Selection items are compared with Dafny's `==`, where the source uses
  lodash `isEqual`. `isEqual` compares deeply and ignores identity, while
  `==` also compares each `ref`. Shapes and shape points carry their
  `genId` string as `id`, so two distinct ones with equal contents already
  differ in `id` under both comparisons. The two comparisons disagree only
  on objects that share an `id` but not a `ref`. Selection items are
  value snapshots, not live references (see "## Left out").
- Coordinates are `real`.
- Distances are compared squared. The square root is monotone, so every
  comparison comes out the same.
- JavaScript string-keyed objects are `Dict.Dict`. It is a map together
  with the order in which keys were first inserted, which is the order
  `Object.keys` reports for these ids.
- `findIndex` / `indexOf` (with their -1) and `splice` (with its negative
  start) are written out in `Arrays`.

Evaluating a magic point at a base point (`getAtBasePoint`) is modelled
up to the thin-plate-spline fit. The fit is a parameter (`MagicPoints.Spline`)
that can fail: a system it cannot solve is its failure. The check for an
empty set of centres (src/lib/ThinPlateSplines.js:27) is part of the model.

Modules, one per source file:
- `Vectors`: src/lib/Vector2.js
- `KeyPointSets`: src/document/KeypointSet.tsx
- `MagicPoints`: src/document/MagicPointThingy.tsx
- `ShapePoints`: src/document/shapes/ShapePoint.tsx
- `CanvasPaths`: src/lib/CanvasHelpers.tsx
- `Shapes`: src/document/shapes/Shape.tsx and src/document/ShapeStyle.tsx
- `Scenes`: src/document/Scene.tsx
- `Serialize`: src/lib/serialize.tsx
- `Viewports`: src/editor/Viewport.tsx
- `Editors`: src/editor/Editor.tsx and src/editor/SelectionItem.tsx
- `ShapeProperties`: src/components/ui/ShapeProperties.tsx

`Wrappers`, `Dict` and `Arrays` are shared helpers.

## Model

| member | source | states |
|---|---|---|
| Vectors.NewVector2 | src/lib/Vector2.js:5-13 | the new vector has the given identity and coordinates |
| Vectors.Clone | src/lib/Vector2.js:15-17 | the clone has the original's coordinates under the new identity |
| Vectors.SetXY | src/lib/Vector2.js:25-28 | keeps the object and its id, and takes the given coordinates |
| Vectors.Set | src/lib/Vector2.js:30-33 | keeps the object and its id, and takes the other vector's coordinates |
| Vectors.Add | src/lib/Vector2.js:48-50 | a new vector from which subtracting the other gives back this one's coordinates |
| Vectors.Subtract | src/lib/Vector2.js:52-54 | a new vector to which adding the other gives back this one's coordinates |
| Vectors.Scale | src/lib/Vector2.js:56-58 | a new vector that, scaled back by the inverse of a non-zero amount, has this one's coordinates; scaling by zero gives the origin |
| Vectors.DistanceProperties | src/lib/Vector2.js:19-23 | distance is symmetric and non-negative, and zero from a point to itself |
| Vectors.NearestIndex | src/lib/Vector2.js:35-46 | the linear scan finds nothing exactly on an empty list; otherwise it finds the first index of minimal distance |
| Vectors.FindNearest | src/lib/Vector2.js:35-46 | null exactly when there are no candidates; otherwise a candidate that no candidate is strictly closer than |
| Vectors.FindNearestPicksFirstMinimum | src/lib/Vector2.js:40-43 | ties go to the earliest minimal candidate, because replacement needs a strictly smaller distance |
| Vectors.NearestIsUnique | src/lib/Vector2.js:35-46 | at most one index meets the "first minimal" description the scan returns |
| Vectors.NearestPrecedesEveryMinimum | src/lib/Vector2.js:40-43 | the chosen index is at or before every candidate at least as close |
| Vectors.AddSubtractRoundTrip | src/lib/Vector2.js:48-54 | `a.add(b).subtract(b)` has a's coordinates |
| Vectors.ScaleByUnits | src/lib/Vector2.js:56-58 | `scale(-1)` negates both coordinates and `scale(1)` keeps them |
| Vectors.MutatorsKeepIdentity | src/lib/Vector2.js:6-33 | `set` and `setXY` change only x and y and keep the object and its id; `clone` copies the coordinates into a new object |
| KeyPointSets.NewKeyPointSet | src/document/KeypointSet.tsx:9-11 | a new set answers no id |
| KeyPointSets.KeyPoints | src/document/KeypointSet.tsx:13-16 | one listed point per stored id, in key order, each stored under its own id |
| KeyPointSets.AddKeyPoint | src/document/KeypointSet.tsx:18-21 | the set stays the same object; the point is stored under its id and every other id keeps its entry |
| KeyPointSets.Get | src/document/KeypointSet.tsx:23-25 | null exactly for an id not stored; a stored point carries the id asked for |
| KeyPointSets.Has | src/document/KeypointSet.tsx:27-29 | membership holds exactly when a listed point has the same id and is the same object |
| KeyPointSets.KeyPointsAreStored | src/document/KeypointSet.tsx:13-16 | `keyPoints` lists exactly the stored points, one per id |
| KeyPointSets.AddKeyPointThenGet | src/document/KeypointSet.tsx:18-29 | after `addKeyPoint(p)`, `get(p.id)` is p and `has(p)` holds; every other id answers as before |
| KeyPointSets.AddKeyPointListing | src/document/KeypointSet.tsx:13-21 | adding overwrites a point with the same id in its place, or else appends the new point to the listing |
| KeyPointSets.AddNewKeyPoint | src/document/KeypointSet.tsx:13-21 | a point with a new id is listed last |
| KeyPointSets.AddAllListing | src/document/KeypointSet.tsx:13-21 | adding points with new, distinct ids one by one lists them after the old ones, in order |
| KeyPointSets.AddAllKeepsIdentity | src/document/KeypointSet.tsx:18-21 | adding points keeps the set object itself |
| KeyPointSets.NeverAddedIsAbsent | src/document/KeypointSet.tsx:23-25 | `get` returns null for an id that was never added |
| KeyPointSets.HasIsIdentity | src/document/KeypointSet.tsx:27-29 | a different object carrying a stored point's id is not a member |
| KeyPointSets.GetNearestTo | src/document/KeypointSet.tsx:31-37 | fails on an empty set; otherwise returns a member at minimal distance from the target |
| MagicPoints.NewMagicPoint | src/document/MagicPointThingy.tsx:14-19 | a new magic point is bound to the given set and stores nothing |
| MagicPoints.KeyPointsFor | src/document/MagicPointThingy.tsx:21-30 | looking up the stored ids fails exactly when one is missing from the set; otherwise it gives the set's points, in order |
| MagicPoints.DefinedKeyPoints | src/document/MagicPointThingy.tsx:21-30 | the defined key points are exactly the set members with a stored value, in storage order; fails if a stored id is missing from the set |
| MagicPoints.GetAtKeyPoint | src/document/MagicPointThingy.tsx:46-55 | fails for a key point that is not a member; a member with a stored value answers that value |
| MagicPoints.GetAtKeyPointFallback | src/document/MagicPointThingy.tsx:52-54 | a member with no value answers the value at the first nearest defined key point, and fails if nothing is defined |
| MagicPoints.ValuesAt | src/document/MagicPointThingy.tsx:32-44 | `getAtKeyPoint` over a list of key points succeeds when every lookup does, and gives each lookup's value in order |
| MagicPoints.GetAtBasePoint | src/document/MagicPointThingy.tsx:32-69 | crashes when `getAtKeyPoint` crashes at some key point of the set, and on a set without key points (the fit's `bad centers array` check, src/lib/ThinPlateSplines.js:27); otherwise each axis is the spline's fit through those values, and evaluation fails exactly when one of the two fits does |
| MagicPoints.GetAtBasePointSucceeds | src/document/MagicPointThingy.tsx:32-69 | evaluation succeeds only on a set with key points that all resolve (each has a stored value, or the stored ids are in the set and one exists), and then exactly when both fits succeed; a magic point storing nothing never evaluates |
| MagicPoints.SetAtKeyPoint | src/document/MagicPointThingy.tsx:57-61 | fails for a non-member; otherwise stores the value under the key point's id and changes no other entry |
| MagicPoints.SetThenGet | src/document/MagicPointThingy.tsx:46-61 | after `setAtKeyPoint(k, v)`, `getAtKeyPoint(k)` is v |
| MagicPoints.Transform | src/document/MagicPointThingy.tsx:71-82 | succeeds when the defined key points resolve and the map succeeds at each; the result has the same set and the same defined points, and `mapFn(value, k)` at each |
| MagicPoints.TransformEach | src/document/MagicPointThingy.tsx:74-80 | the loop over the defined points stores `mapFn` of each point's value under its id, in order |
| MagicPoints.Add | src/document/MagicPointThingy.tsx:84-88 | succeeds exactly when the other point resolves every defined key point; the result has the same set and defined key points |
| MagicPoints.Subtract | src/document/MagicPointThingy.tsx:90-94 | the same condition and shape as `add` |
| MagicPoints.Scale | src/document/MagicPointThingy.tsx:96-98 | fails only when a stored id is missing from the set; same set and defined key points |
| MagicPoints.AddPointwise | src/document/MagicPointThingy.tsx:84-88 | `add` succeeds exactly when the other point resolves every defined key point; then each value is the sum with the other's value there |
| MagicPoints.SubtractPointwise | src/document/MagicPointThingy.tsx:90-94 | `subtract` is the pointwise difference with the other's value, under the same condition |
| MagicPoints.ScalePointwise | src/document/MagicPointThingy.tsx:96-98 | `scale(c)` multiplies every defined value by c |
| MagicPoints.SameKeysResolve | src/document/MagicPointThingy.tsx:46-55 | a point defined on the same key points resolves all of them |
| MagicPoints.SubtractUndoesAdd | src/document/MagicPointThingy.tsx:84-94 | `a.add(b).subtract(b)` is a again |
| MagicPoints.ScaleTwiceByMinusOne | src/document/MagicPointThingy.tsx:96-98 | scaling by -1 twice gives back the original |
| ShapePoints.NewShapePoint | src/document/shapes/ShapePoint.tsx:5-19 | a new shape point has the new id and the given origin, is mirrored, and has no stored control points |
| ShapePoints.SetMirrored | src/document/shapes/ShapePoint.tsx:13-14 | sets the mirroring flag and keeps the id, the origin and both stored control points |
| ShapePoints.SetLeadingRelative | src/document/shapes/ShapePoint.tsx:21-28 | the leading getter returns what the setter stored, and nothing else changes: the point keeps its id, origin, following control and mirroring |
| ShapePoints.FollowingRelative | src/document/shapes/ShapePoint.tsx:30-39 | when mirrored, the following control is null iff the leading one is, and otherwise is leading scaled by -1; when not mirrored, it is the stored following control |
| ShapePoints.SetFollowingRelative | src/document/shapes/ShapePoint.tsx:41-51 | when mirrored, stores the point scaled by -1 as leading (or clears leading for null), fails exactly when scaling fails, and leaves the stored following control alone; when not mirrored, stores the point as following and changes nothing else; the point keeps its id either way |
| ShapePoints.MirroredFollowingRoundTrip | src/document/shapes/ShapePoint.tsx:30-51 | when mirrored, the following getter reads back the point just set |
| ShapePoints.UnmirroredFollowingRoundTrip | src/document/shapes/ShapePoint.tsx:38-51 | when not mirrored, the following getter reads back the point just set, and leading is unchanged |
| ShapePoints.MirroredClearBoth | src/document/shapes/ShapePoint.tsx:30-51 | when mirrored, clearing following also clears leading |
| ShapePoints.ToggleMirroredMovesNoData | src/document/shapes/ShapePoint.tsx:14-39 | toggling mirroring moves no data; it only changes which field the following getter reads |
| ShapePoints.LeadingGlobal | src/document/shapes/ShapePoint.tsx:53-58 | null iff the leading relative is null, otherwise origin plus leading relative |
| ShapePoints.SetLeadingGlobal | src/document/shapes/ShapePoint.tsx:60-66 | stores the point minus the origin as the relative control; null clears it; fails exactly when the subtraction fails; the id, origin, following control and mirroring are kept |
| ShapePoints.FollowingGlobal | src/document/shapes/ShapePoint.tsx:68-73 | null iff the following relative is null, otherwise origin plus following relative |
| ShapePoints.SetFollowingGlobal | src/document/shapes/ShapePoint.tsx:75-81 | when not mirrored, stores the point minus the origin as following; when mirrored, stores the negated difference as leading; null clears the field that setter writes; each fails exactly when the subtraction or the negation fails; the id, origin and mirroring are kept, and so is the field the setter does not write |
| ShapePoints.LeadingGlobalRoundTrip | src/document/shapes/ShapePoint.tsx:53-66 | a global leading control on the origin's key points reads back as set |
| ShapePoints.FollowingGlobalRoundTrip | src/document/shapes/ShapePoint.tsx:68-81 | a global following control on the origin's key points reads back as set, mirrored or not |
| ShapePoints.LeadingGlobalAt | src/document/shapes/ShapePoint.tsx:53-66 | at each key point defined in both the origin and G, the global reads back G's value |
| ShapePoints.FollowingGlobalAt | src/document/shapes/ShapePoint.tsx:30-81 | at each key point defined in both the origin and G, the following global reads back G's value, mirrored or not |
| CanvasPaths.Segment | src/lib/CanvasHelpers.tsx:155-173 | fails exactly when evaluating the origin, reading a control or evaluating an existing control fails; otherwise a cubic when the previous point leads and this one follows, with those controls; a quadratic on whichever one exists; otherwise a line; it always ends at the point's origin |
| CanvasPaths.LineSegment | src/lib/CanvasHelpers.tsx:155-173 | the same choice and failure cases, taken from two shape points' global controls evaluated at the base point, with the quadratic's control point the leading one when it exists |
| CanvasPaths.ShapePath | src/lib/CanvasHelpers.tsx:148-190 | one move-to the first origin, then a segment per later point, and when closed a last-to-first segment and `closePath`; fails exactly when one of those fails; an empty open list gives an empty path |
| CanvasPaths.OpenPathAppend | src/lib/CanvasHelpers.tsx:175-181 | one more point on an open list adds one segment to the end of the path |
| CanvasPaths.VertexPath | src/lib/CanvasHelpers.tsx:175-187 | the path over already evaluated points, with the same layout |
| CanvasPaths.PathVisitsOrigins | src/lib/CanvasHelpers.tsx:175-187 | the path's end points are the points' origins in order, plus the first again when closed |
| CanvasPaths.SharpPointsDrawPolygon | src/lib/CanvasHelpers.tsx:164-172 | points without control points, whose origins evaluate, draw a polygon of line segments |
| CanvasPaths.SharpSegment | src/lib/CanvasHelpers.tsx:170-172 | between two points without control points the segment is a line-to the evaluated origin |
| Shapes.NewShapeStyle | src/document/ShapeStyle.tsx:5-19 | a new style strokes in black at width 1 and does not fill |
| Shapes.NewShape | src/document/shapes/Shape.tsx:10-17 | a new shape has no points and is open |
| Shapes.AddPoint | src/document/shapes/Shape.tsx:19-21 | appends the point and keeps the earlier points in order |
| Shapes.Close | src/document/shapes/Shape.tsx:23-25 | the shape becomes closed and nothing else changes |
| Shapes.CloseIsIdempotent | src/document/shapes/Shape.tsx:23-25 | closing twice is closing once, and nothing reopens a closed shape |
| Shapes.CanvasPath | src/document/shapes/Shape.tsx:27-29 | the shape's path is the path over its points evaluated at the base point, closed as the shape is |
| Shapes.AddPointExtendsPath | src/document/shapes/Shape.tsx:19-29 | adding a point to an open shape adds one segment to the end of its path |
| Shapes.CloseAddsClosingSegment | src/document/shapes/Shape.tsx:23-29 | closing adds the last-to-first segment and `closePath` |
| Scenes.NewScene | src/document/Scene.tsx:18-27 | a new scene has zero size, no shapes and an empty key point set |
| Scenes.Init | src/document/Scene.tsx:37-46 | sets the size, installs the new key point set and keeps the shapes |
| Scenes.InitCorners | src/document/Scene.tsx:37-46 | the new set holds exactly the four corner points at a quarter and three quarters of the size, clockwise from the top left |
| Scenes.AddShape | src/document/Scene.tsx:48-50 | appends the shape and keeps the others in order; the scene object keeps its ref and id |
| Scenes.AddShapeIsOnTop | src/document/Scene.tsx:48-50 | a shape not yet in the scene is found on top after it is added, and the scene gains exactly one copy of it |
| Scenes.CreateMagicPoint | src/document/Scene.tsx:56-58 | the new magic point is bound to the scene's set and defines nothing |
| Scenes.Deserialize | src/document/Scene.tsx:29-35 | fails unless the deserialized root is an instance of the scene class |
| Serialize.ExtendModel | src/lib/serialize.tsx:35-40 | the child's constructor; the child's name unless it is empty; parent-first primitives; refs merged with the child winning |
| Serialize.ModelsInInheritanceTree | src/lib/serialize.tsx:133-138 | the registered models along the inheritance chain end with the class's own |
| Serialize.CombinePrimitives | src/lib/serialize.tsx:133-155 | a combined model's primitives are the chain's primitives, parent first |
| Serialize.Register | src/lib/serialize.tsx:140-158 | rejects names containing `#` and names already taken; otherwise registers the combined model under both its class and its name |
| Serialize.RegisterKeepsCoherence | src/lib/serialize.tsx:140-158 | registering a non-empty name keeps every class's model stored under its own name |
| Serialize.EmptyNameTakesAncestorName | src/lib/serialize.tsx:37-38 | a subclass registered with an empty name takes the ancestor's name |
| Serialize.ModelForClass | src/lib/serialize.tsx:42-46 | fails for an unregistered class, else gives its model |
| Serialize.ScopedId | src/lib/serialize.tsx:48-53 | `Name#id`; fails if the id contains `#` or the class is unregistered |
| Serialize.SplitScopedId | src/lib/serialize.tsx:166-173 | splitting `name#id` on `#` gives the name and the id back |
| Serialize.ParseId | src/lib/serialize.tsx:166-173 | fails unless the scoped id has exactly two `#`-separated parts and the name is registered |
| Serialize.ParseScopedId | src/lib/serialize.tsx:48-173 | parsing an object's scoped id gives back its model and id |
| Serialize.ParsedIdJoinsBack | src/lib/serialize.tsx:166-173 | a parsed scoped id is the name and the id joined by `#` |
| Serialize.SerializeSingleRef | src/lib/serialize.tsx:55-65 | writes the object once under its scoped id, reuses an existing entry, and returns the scoped id |
| Serialize.SerializeItem | src/lib/serialize.tsx:101-116 | the entry holds the primitives copied and every ref replaced by the scoped ids it names |
| Serialize.SerializeRef | src/lib/serialize.tsx:83-99 | null stays null; a list keeps its order and length; an object map keeps its keys |
| Serialize.SerializeRefList | src/lib/serialize.tsx:67-72 | a list of refs becomes the list of their scoped ids |
| Serialize.SerializeObjectMap | src/lib/serialize.tsx:74-81 | an object map keeps its keys, each value becoming a scoped id |
| Serialize.SerializeList | src/lib/serialize.tsx:67-72 | each ref in the list becomes its object's scoped id, in order, and every written entry stays in the table |
| Serialize.SerializeRoot | src/lib/serialize.tsx:160-164 | returns the root's scoped id, and every id the table mentions has an entry |
| Serialize.SelfReferenceOverflows | src/lib/serialize.tsx:55-65 | an object that refers to itself is never written, because its entry appears only after recursion |
| Serialize.DeserializeItem | src/lib/serialize.tsx:205-230 | a cached scoped id gives the same object; otherwise the entry is decoded with the parsed id and its primitives; a missing entry fails |
| Serialize.DeserializeRef | src/lib/serialize.tsx:175-204 | reads the referenced entries and fails on a value of the wrong shape |
| Serialize.DeserializeList | src/lib/serialize.tsx:185-188 | every id in the list is read into the cache, and everything loaded stays loaded |
| Serialize.Deserialize | src/lib/serialize.tsx:232-235 | the root is its entry decoded, every cached object is its entry decoded, and every id it mentions is cached |
| Serialize.SelfNamingEntryOverflows | src/lib/serialize.tsx:205-230 | an entry that names itself never finishes loading |
| Serialize.RoundTrip | src/lib/serialize.tsx:160-235 | with distinct scoped ids, reading a written graph gives each object with its refs renamed to scoped ids |
| Serialize.RefTargetIgnored | src/lib/serialize.tsx:118-131 | a ref's declared target class changes neither writing nor reading; the scoped id's name chooses the model |
| Viewports.NewViewport | src/editor/Viewport.tsx:47-54 | fails exactly on an empty key point set; otherwise zoom 1, no pan or insets, the given window, scale from the device pixel ratio (1 when it is 0), and a new base point at the coordinates of the key point nearest the scene's centre |
| Viewports.NewViewportRestsOnKeyPoint | src/editor/Viewport.tsx:47-115 | a new viewport's nearest key point lies exactly at its base point |
| Viewports.PxWidth | src/editor/Viewport.tsx:66-69 | the insets and the pixel width add up to the window width |
| Viewports.PxHeight | src/editor/Viewport.tsx:71-74 | the insets and the pixel height add up to the window height |
| Viewports.IdealPanX | src/editor/Viewport.tsx:87-93 | at least the margin; a scene narrower than the available width has its middle at the middle of that width |
| Viewports.IdealPanY | src/editor/Viewport.tsx:95-101 | the same, vertically |
| Viewports.IdealZoom | src/editor/Viewport.tsx:76-85 | the smaller of the two fits of the scene into the available size |
| Viewports.IdealPanCentres | src/editor/Viewport.tsx:87-101 | a scene narrower than the available space is centred between the margins; otherwise the pan is the margin |
| Viewports.Px | src/editor/Viewport.tsx:103-106 | one screen pixel in scene units, so that px times zoom is 1 |
| Viewports.NearestKeyPoint | src/editor/Viewport.tsx:108-115 | fails without key points; otherwise a scene key point nearest the base point |
| Viewports.SceneToScreen | src/editor/Viewport.tsx:122-127 | the screen point, less the inset and pan, is the scene point scaled by the zoom |
| Viewports.ScreenToScene | src/editor/Viewport.tsx:129-134 | the scene point that maps back to the given screen point |
| Viewports.ConversionsAreInverse | src/editor/Viewport.tsx:122-134 | scene to screen and screen to scene are mutual inverses when zoom is non-zero |
| Viewports.ZoomAtPoint | src/editor/Viewport.tsx:158-183 | multiplies zoom by the adjustment and changes only zoom and pan |
| Viewports.ZoomKeepsPointFixed | src/editor/Viewport.tsx:158-183 | the scene point under the given screen point stays under it |
| Viewports.Pan | src/editor/Viewport.tsx:185-189 | adds the offsets to the pan and changes nothing else |
| Viewports.PanShiftsTheScreen | src/editor/Viewport.tsx:185-189 | pan adds to panX and panY and so shifts every screen position; pans compose, and a zero pan changes nothing |
| Viewports.SetSize | src/editor/Viewport.tsx:136-156 | records the window, scale and insets and keeps the base point |
| Viewports.SetSizePansWithOldZoom | src/editor/Viewport.tsx:136-156 | the pan is computed with the previous zoom while the zoom becomes the ideal zoom |
| Viewports.SetSizeTwiceSettles | src/editor/Viewport.tsx:136-156 | a second identical call keeps the zoom and brings the pan to the ideal for it |
| Editors.NewEditor | src/editor/Editor.tsx:15-38 | a new editor has the select tool and selects nothing |
| Editors.SetTool | src/editor/Editor.tsx:56-59 | changes only the tool |
| Editors.ReplaceSelection | src/editor/Editor.tsx:61-64 | replaces the whole selection and nothing else |
| Editors.ClearSelection | src/editor/Editor.tsx:76-79 | leaves the selection empty |
| Arrays.IndexOf | src/editor/Editor.tsx:66-74 | -1 exactly when the item is absent, otherwise the first index holding it |
| Arrays.SpliceOne | src/editor/Editor.tsx:66-74 | removes the element at the start index, counting a negative start from the end and clamping it at 0, and removes nothing past the end |
| Editors.ToggleSelectedAsWritten | src/editor/Editor.tsx:66-74 | as written, an item not selected shortens the selection by one (or leaves it empty) |
| Editors.ToggleAbsentDropsLast | src/editor/Editor.tsx:66-74 | as written, toggling an absent item drops the last selected item and does not add the item |
| Editors.ToggleAsWrittenCounterexample | src/editor/Editor.tsx:66-74 | with one shape selected, toggling another shape selects nothing |
| Editors.ToggleSecondPointDropsLast | src/editor/Editor.tsx:66-74 | as written, a second shape point made at the same spot is a different item, so toggling it drops the last selected item |
| Editors.ToggleSelectedCounts | src/editor/Editor.tsx:66-74 | as intended, toggling removes one copy of a selected item, or adds an absent item |
| Editors.ToggleTwiceRestores | src/editor/Editor.tsx:66-74 | as intended, toggling an absent item twice restores the selection |
| Editors.ReplaceDocumentWithNew | src/editor/Editor.tsx:81-84 | installs a new scene of the given size with no shapes, keeping the tool and selection |
| Editors.ReplaceDocumentWithDefault | src/editor/Editor.tsx:81-84 | the default size is 200 by 100 |
| Editors.NewDocumentHasFourCorners | src/editor/Editor.tsx:81-84 | the new document's key points are its four corners |
| ShapeProperties.SendBackward | src/components/ui/ShapeProperties.tsx:91-101 | the list keeps its length and its shapes |
| ShapeProperties.SendBackwardMovesOneStep | src/components/ui/ShapeProperties.tsx:91-101 | a shape past the first swaps with its predecessor and every other position is unchanged; first or absent shapes change nothing |
| ShapeProperties.BringForwardAsWritten | src/components/ui/ShapeProperties.tsx:79-89 | as written, the last shape makes the list one longer |
| ShapeProperties.BringForwardLastLeavesHole | src/components/ui/ShapeProperties.tsx:84-88 | as written, the last slot becomes undefined and the shape lands one past the end |
| ShapeProperties.BringForwardAsWrittenCounterexample | src/components/ui/ShapeProperties.tsx:84-88 | a scene with one shape, brought forward, becomes `[undefined, shape]` |
| ShapeProperties.BringForward | src/components/ui/ShapeProperties.tsx:79-89 | as intended, the list keeps its length and its shapes |
| ShapeProperties.BringForwardMovesOneStep | src/components/ui/ShapeProperties.tsx:79-89 | a shape before the last swaps with its successor and every other position is unchanged; last or absent shapes change nothing |
| ShapeProperties.BringForwardAgreesBeforeLast | src/components/ui/ShapeProperties.tsx:79-89 | except on the last shape, the handler as written does what was intended |
| ShapeProperties.SendBackwardUndoesBringForward | src/components/ui/ShapeProperties.tsx:79-101 | among distinct shapes, sending back undoes bringing forward a shape that was not last |
| ShapeProperties.BringForwardUndoesSendBackward | src/components/ui/ShapeProperties.tsx:79-101 | among distinct shapes, bringing forward undoes sending back a shape that was not first |
| ShapeProperties.ChangeStrokeWidth | src/components/ui/ShapeProperties.tsx:61-67 | a parsed number becomes the stroke width and nothing else changes; NaN changes nothing |
| ShapeProperties.StrokeWidthLastWins | src/components/ui/ShapeProperties.tsx:61-67 | the last accepted width counts, and re-entering the current width changes nothing |

## Findings

| source | as written | input that shows it | evidently intended | confidence | as-written member | corrected member |
|---|---|---|---|---|---|---|
| src/editor/Editor.tsx:66-74 | `findIndex` gives -1 for an unselected item, and `-1 != null` holds, so `splice(-1, 1)` always runs and the `push` branch never does | selection `[shape a]`, toggle `shape b`: the selection becomes empty | an unselected item is added to the end | not executed | Editors.ToggleSelectedAsWritten, Editors.ToggleAsWrittenCounterexample | Editors.ToggleSelected |
| src/components/ui/ShapeProperties.tsx:84-88 | the guard `shapeIndex < allShapes.length` holds for any found index, so the last shape is also swapped with `allShapes[length]` | shapes `[a]`, bring `a` forward: the list becomes `[undefined, a]` | the last shape stays where it is (the guard should be `< length - 1`) | not executed | ShapeProperties.BringForwardAsWritten, ShapeProperties.BringForwardAsWrittenCounterexample | ShapeProperties.BringForward |

## Left out

- Thin-plate-spline fitting (src/lib/TPS.tsx): floating point logarithms and a matrix inverse in an external library. The fit is the parameter `MagicPoints.Spline`. The lookups it is fitted through, and their crashes, are modelled.
- MagicPoints.GetAtBasePoint: which systems are singular is not modelled. The fit's failure on a system it cannot invert (src/lib/ThinPlateSplines.js:67-72, for example two key points at the same place) is whatever `Fail` the `Spline` parameter returns. The empty-centres crash follows src/lib/ThinPlateSplines.js:27. The TypeScript twin src/lib/TPS.tsx drops both checks, and fails later instead: in the matrix library, or when `getValue` reads weights the solve did not produce.
- Canvas drawing, `Viewport.getItemAtSceneCoord` (canvas `isPointInStroke`), pointer and drag handling, keyboard tracking and React components: browser I/O.
- Autosave (`localStorage`, `Editor.fromAutoSave`, `startAutosaving`), file save and open, and JSON text: I/O. The serializer is modelled up to the JavaScript object it builds.
- `genId` (clock-based) and object allocation: every new identity the model keeps is a `Vectors.Fresh` parameter.
- MagicPoints.MagicPoint: has no `id` or `ref`. `transform`, `add`, `subtract` and `scale` always allocate a new object, and nothing in the model compares magic points by identity.
- MagicPoints.MagicPoint: stored values are `Coord`s without identity. The program reads them and never compares them by identity.
- Editors.SelectionItem: an item is a snapshot of the shape or point's value when it was selected. Editor.tsx:21 keeps live references, so in JavaScript a selected shape that changes afterwards is still `isEqual` to its item. In the model, the snapshot no longer equals the changed shape, and toggling the changed shape does not find the old item.
- Editors.SelectionItem: items are compared with `==`, which unlike lodash `isEqual` also compares each `ref`. Two objects with equal contents, including their `genId` id, but different identities are one item in JavaScript and two in the model. The core never makes such a pair: each allocation draws a new id, and deserializing replaces the whole document.
- Floating point: coordinates are exact reals, and `parseFloat` is a parameter `Option<real>` with `None` for NaN.
- MagicPoints.MagicPoint: holds its key point set by value. Points added to the set after the magic point was made are not seen through it.
- Object key order: `Dict` keeps insertion order, which matches `Object.keys` for the non-numeric ids the program makes. Integer-like keys are not modelled.
- Serialize.SerializeSingleRef: the JavaScript stack limit is a `fuel` parameter. Running out of fuel fails like the stack overflow. A graph with a cycle fails for every fuel (Serialize.SelfReferenceOverflows).
- Serialize.DeserializeItem: re-entering an entry that is still being read fails at once with the stack overflow message, where JavaScript would recurse until the stack runs out.
- Serialize.CopyPrimitives: a primitive field holding an object fails rather than being copied by reference.
- Serialize.SerializeRef: a ref field whose value has the wrong shape for its kind fails rather than being written anyway. A `null` inside a list is not modelled.
- Serialize.DeserializeRef: a value of the wrong shape fails. JavaScript would read an array under an object-map ref through its index keys (serialize.tsx:189-198), and would call `map` on an object under a list ref and crash.
- Serialize.DeserializeItem: a deserialized object is its class, id and fields. Fields outside the model keep the constructor's defaults in JavaScript and are not modelled.
- Serialize.RoundTrip: assumes both directions succeed. It does not prove that reading a written table always succeeds.
- Serialize.RegisterKeepsCoherence: requires a non-empty name. With an empty name the model inherits the ancestor's name and the registry loses coherence (Serialize.EmptyNameTakesAncestorName).
- CanvasPaths.ShapePath: a closed shape with no points reads `points[-1]` in JavaScript. It is modelled as a failure.
- Viewports.ScreenToScene: requires a non-zero zoom, because JavaScript would divide by zero and give Infinity or NaN.
- Viewports.Px: requires a non-zero zoom, for the same reason.
- Viewports.ZoomAtPoint: requires a non-zero zoom, for the same reason. Its two `console.log` calls (Viewport.tsx:160, 176) only print. The second prints the scene point under the cursor before and after, and Viewports.ZoomKeepsPointFixed proves these are equal.
- Viewports.IdealZoom: requires a non-zero scene size, for the same reason.
- Viewports.SetSize: requires a non-zero scene size, because it calls the ideal zoom.
- `ShapeStyle` colour pickers, fill and stroke toggles: single field writes with no logic beyond the stroke width case modelled.
