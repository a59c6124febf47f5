/** `Viewport` (src/editor/Viewport.tsx): the affine map between scene
    coordinates and screen coordinates, a zoom and a pan inside a window
    with insets, and the base point the scene is drawn at. */
module Viewports {
  import opened Wrappers
  import opened Vectors
  import KeyPointSets
  import Scenes

  /** `MARGIN`: screen space kept clear around the scene. */
  const Margin: real := 15.0

  /** The window size and insets, the device pixel ratio, the base point,
      the pan and the zoom. The scene is the editor's, passed in. */
  datatype Viewport = Viewport(
    top: real, left: real, bottom: real, right: real,
    windowWidth: real, windowHeight: real,
    scale: real,
    basePoint: Vector2,
    panX: real, panY: real,
    zoom: real)

  /** `new Viewport(editor)`: no insets, pan 0, zoom 1, and the base point
      moved onto the key point nearest the scene's centre. The window size
      and pixel ratio are parameters; a pixel ratio of 0 reads as 1. An
      empty key point set crashes. `alloc` is the identity of the base
      point, `centreAlloc` that of the temporary centre vector. */
  function NewViewport(scene: Scenes.Scene, windowWidth: real, windowHeight: real, devicePixelRatio: real,
                       alloc: Fresh, centreAlloc: Fresh): (r: Result<Viewport>)
    ensures r.Ok? <==> scene.keyPointSet.byId.keys != []
    ensures r.Ok? ==> r.value.zoom == 1.0 && r.value.panX == 0.0 && r.value.panY == 0.0
    ensures r.Ok? ==> r.value.top == 0.0 && r.value.left == 0.0 && r.value.bottom == 0.0 && r.value.right == 0.0
    ensures r.Ok? ==> r.value.windowWidth == windowWidth && r.value.windowHeight == windowHeight
    ensures r.Ok? ==> r.value.scale == if devicePixelRatio == 0.0 then 1.0 else devicePixelRatio
    ensures r.Ok? ==> r.value.basePoint.ref == alloc.ref && r.value.basePoint.id == alloc.id
    ensures r.Ok? ==> exists p :: p in KeyPointSets.KeyPoints(scene.keyPointSet) && p.At() == r.value.basePoint.At()
    ensures r.Ok? ==> forall p :: p in KeyPointSets.KeyPoints(scene.keyPointSet) ==>
      DistanceSq(Coord(scene.width / 2.0, scene.height / 2.0), r.value.basePoint.At()) <=
      DistanceSq(Coord(scene.width / 2.0, scene.height / 2.0), p.At())
    ensures r.Ok? ==>
      r.value.basePoint.At() == KeyPointSets.GetNearestTo(scene.keyPointSet, NewVector2(centreAlloc, scene.width / 2.0, scene.height / 2.0)).value.At()
  {
    var center := NewVector2(centreAlloc, scene.width / 2.0, scene.height / 2.0);
    var nearest :- KeyPointSets.GetNearestTo(scene.keyPointSet, center);
    var basePoint := Set(NewVector2(alloc, 0.0, 0.0), nearest);
    Ok(Viewport(0.0, 0.0, 0.0, 0.0, windowWidth, windowHeight,
                if devicePixelRatio == 0.0 then 1.0 else devicePixelRatio,
                basePoint, 0.0, 0.0, 1.0))
  }

  /** `pxWidth`: the window width inside the insets. */
  function PxWidth(v: Viewport): (w: real)
    ensures v.left + w + v.right == v.windowWidth
  {
    v.windowWidth - v.left - v.right
  }

  /** `pxHeight`: the window height inside the insets. */
  function PxHeight(v: Viewport): (h: real)
    ensures v.top + h + v.bottom == v.windowHeight
  {
    v.windowHeight - v.top - v.bottom
  }

  /** The width left for the scene inside the margins. */
  function AvailWidth(v: Viewport): real {
    PxWidth(v) - 2.0 * Margin
  }

  /** The height left for the scene inside the margins. */
  function AvailHeight(v: Viewport): real {
    PxHeight(v) - 2.0 * Margin
  }

  /** `idealZoom`: the largest zoom at which the scene fits the available
      width and height. */
  function IdealZoom(v: Viewport, sceneWidth: real, sceneHeight: real): (z: real)
    requires sceneWidth != 0.0 && sceneHeight != 0.0
    ensures z <= AvailWidth(v) / sceneWidth && z <= AvailHeight(v) / sceneHeight
    ensures z == AvailWidth(v) / sceneWidth || z == AvailHeight(v) / sceneHeight
  {
    var w := AvailWidth(v) / sceneWidth;
    var h := AvailHeight(v) / sceneHeight;
    if w <= h then w else h
  }

  /** `idealPanX`: centres the zoomed scene in the available width when it
      is narrower, and otherwise puts its left edge on the margin. */
  function IdealPanX(v: Viewport, sceneWidth: real): (p: real)
    ensures p >= Margin
    ensures v.zoom * sceneWidth < AvailWidth(v) ==> p + v.zoom * sceneWidth / 2.0 == Margin + AvailWidth(v) / 2.0
    ensures v.zoom * sceneWidth >= AvailWidth(v) ==> p == Margin
  {
    var avail := AvailWidth(v);
    if v.zoom * sceneWidth < avail then Margin + (avail / 2.0 - v.zoom * sceneWidth / 2.0) else Margin
  }

  /** `idealPanY`, vertically. */
  function IdealPanY(v: Viewport, sceneHeight: real): (p: real)
    ensures p >= Margin
    ensures v.zoom * sceneHeight < AvailHeight(v) ==> p + v.zoom * sceneHeight / 2.0 == Margin + AvailHeight(v) / 2.0
    ensures v.zoom * sceneHeight >= AvailHeight(v) ==> p == Margin
  {
    var avail := AvailHeight(v);
    if v.zoom * sceneHeight < avail then Margin + (avail / 2.0 - v.zoom * sceneHeight / 2.0) else Margin
  }

  /** The ideal pan leaves as much room left of the zoomed scene as right
      of it, when the scene fits; otherwise the scene starts at the margin. */
  lemma IdealPanCentres(v: Viewport, sceneWidth: real, sceneHeight: real)
    ensures var p := IdealPanX(v, sceneWidth);
      v.zoom * sceneWidth < AvailWidth(v) ==>
        p - Margin == (Margin + AvailWidth(v)) - (p + v.zoom * sceneWidth) && p > Margin
    ensures var p := IdealPanY(v, sceneHeight);
      v.zoom * sceneHeight < AvailHeight(v) ==>
        p - Margin == (Margin + AvailHeight(v)) - (p + v.zoom * sceneHeight) && p > Margin
    ensures v.zoom * sceneWidth >= AvailWidth(v) ==> IdealPanX(v, sceneWidth) == Margin
    ensures v.zoom * sceneHeight >= AvailHeight(v) ==> IdealPanY(v, sceneHeight) == Margin
  {
  }

  /** `px`: the scene length of one screen pixel. */
  function Px(v: Viewport): (px: real)
    requires v.zoom != 0.0
    ensures px * v.zoom == 1.0
  {
    1.0 / v.zoom
  }

  /** `nearestKeyPoint`: the scene's key point nearest the base point (the
      first of several at equal distance); it crashes when there are none. */
  function NearestKeyPoint(v: Viewport, scene: Scenes.Scene): (r: Result<Vector2>)
    ensures r.Fail? <==> KeyPointSets.KeyPoints(scene.keyPointSet) == []
    ensures r.Ok? ==> r.value in KeyPointSets.KeyPoints(scene.keyPointSet)
    ensures r.Ok? ==> forall p :: p in KeyPointSets.KeyPoints(scene.keyPointSet) ==>
      DistanceSq(v.basePoint.At(), r.value.At()) <= DistanceSq(v.basePoint.At(), p.At())
  {
    match FindNearest(v.basePoint, KeyPointSets.KeyPoints(scene.keyPointSet))
    case None => Fail("nearest must be found")
    case Some(p) => Ok(p)
  }

  /** A new viewport's base point sits on a key point: the nearest key
      point to it is at distance zero. */
  lemma {:induction false} NewViewportRestsOnKeyPoint(scene: Scenes.Scene, windowWidth: real, windowHeight: real,
                                                      devicePixelRatio: real, alloc: Fresh, centreAlloc: Fresh)
    requires NewViewport(scene, windowWidth, windowHeight, devicePixelRatio, alloc, centreAlloc).Ok?
    ensures var v := NewViewport(scene, windowWidth, windowHeight, devicePixelRatio, alloc, centreAlloc).value;
      NearestKeyPoint(v, scene).Ok? && DistanceSq(v.basePoint.At(), NearestKeyPoint(v, scene).value.At()) == 0.0
  {
    var v := NewViewport(scene, windowWidth, windowHeight, devicePixelRatio, alloc, centreAlloc).value;
    var p :| p in KeyPointSets.KeyPoints(scene.keyPointSet) && p.At() == v.basePoint.At();
    var n := NearestKeyPoint(v, scene).value;
    DistanceProperties(v.basePoint.At(), n.At());
    DistanceProperties(v.basePoint.At(), p.At());
  }

  /** `sceneCoordsToScreenCoords(x, y)`. */
  function SceneToScreen(v: Viewport, c: Coord): (r: Coord)
    ensures Minus(r, Coord(v.left + v.panX, v.top + v.panY)) == Times(c, v.zoom)
  {
    Coord(c.x * v.zoom + v.panX + v.left, c.y * v.zoom + v.panY + v.top)
  }

  /** `screenCoordsToSceneCoords(x, y)`. */
  function ScreenToScene(v: Viewport, c: Coord): (r: Coord)
    requires v.zoom != 0.0
    ensures SceneToScreen(v, r) == c
  {
    Coord((c.x - v.left - v.panX) / v.zoom, (c.y - v.top - v.panY) / v.zoom)
  }

  /** The two conversions undo each other. */
  lemma ConversionsAreInverse(v: Viewport, c: Coord)
    requires v.zoom != 0.0
    ensures ScreenToScene(v, SceneToScreen(v, c)) == c
    ensures SceneToScreen(v, ScreenToScene(v, c)) == c
  {
  }

  /** `zoomAtPoint(zoomAdjust, screenX, screenY)`: multiplies the zoom and
      moves the pan so the scene point under the given screen point stays
      there. */
  function ZoomAtPoint(v: Viewport, zoomAdjust: real, screenX: real, screenY: real): (r: Viewport)
    requires v.zoom != 0.0
    ensures r.zoom == v.zoom * zoomAdjust
    ensures r == v.(panX := r.panX, panY := r.panY, zoom := r.zoom)
  {
    var newZoom := v.zoom * zoomAdjust;
    v.(panX := screenX - v.left - (newZoom / v.zoom) * (screenX - v.left - v.panX),
       panY := screenY - v.top - (newZoom / v.zoom) * (screenY - v.top - v.panY),
       zoom := newZoom)
  }

  /** The scene point under the zoom centre is the same before and after:
      the check the source logs. */
  lemma ZoomKeepsPointFixed(v: Viewport, zoomAdjust: real, screenX: real, screenY: real)
    requires v.zoom != 0.0 && zoomAdjust != 0.0
    ensures ScreenToScene(ZoomAtPoint(v, zoomAdjust, screenX, screenY), Coord(screenX, screenY)) ==
            ScreenToScene(v, Coord(screenX, screenY))
  {
    ZoomFixesAxis(v.zoom, zoomAdjust, v.left, v.panX, screenX);
    ZoomFixesAxis(v.zoom, zoomAdjust, v.top, v.panY, screenY);
  }

  /** One axis of `ZoomKeepsPointFixed`: the zoomed pan keeps the scene
      coordinate under the screen coordinate. */
  lemma ZoomFixesAxis(zoom: real, k: real, inset: real, pan: real, screen: real)
    requires zoom != 0.0 && k != 0.0
    ensures var newZoom := zoom * k;
      (screen - inset - (screen - inset - (newZoom / zoom) * (screen - inset - pan))) / newZoom ==
      (screen - inset - pan) / zoom
  {
    var d := screen - inset - pan;
    assert (zoom * k) / zoom == k;
    assert screen - inset - (screen - inset - k * d) == k * d;
    CancelFactor(d, zoom, k);
  }

  /** A factor common to numerator and denominator cancels. */
  lemma CancelFactor(a: real, z: real, k: real)
    requires z != 0.0 && k != 0.0
    ensures (k * a) / (z * k) == a / z
  {
  }

  /** `pan(x, y)`. */
  function Pan(v: Viewport, x: real, y: real): (r: Viewport)
    ensures r.panX == v.panX + x && r.panY == v.panY + y
    ensures r == v.(panX := r.panX, panY := r.panY)
  {
    v.(panX := v.panX + x, panY := v.panY + y)
  }

  /** Panning moves every scene point by the same amount on screen, and two
      pans add up. */
  lemma PanShiftsTheScreen(v: Viewport, x: real, y: real, x2: real, y2: real, c: Coord)
    ensures SceneToScreen(Pan(v, x, y), c) == Plus(SceneToScreen(v, c), Coord(x, y))
    ensures Pan(Pan(v, x, y), x2, y2) == Pan(v, x + x2, y + y2)
    ensures Pan(v, 0.0, 0.0) == v
  {
    var p := Pan(v, x, y);
    assert c.x * p.zoom + p.panX + p.left == (c.x * v.zoom + v.panX + v.left) + x;
    assert c.y * p.zoom + p.panY + p.top == (c.y * v.zoom + v.panY + v.top) + y;
  }

  /** `setSize(...)`: records the window and insets, then assigns the
      ideal pan before the ideal zoom, so the pan is worked out with the
      zoom from before the call. */
  function SetSize(v: Viewport, sceneWidth: real, sceneHeight: real,
                   windowWidth: real, windowHeight: real, devicePixelRatio: real,
                   left: real, top: real, right: real, bottom: real): (r: Viewport)
    requires sceneWidth != 0.0 && sceneHeight != 0.0
    ensures r.windowWidth == windowWidth && r.windowHeight == windowHeight && r.scale == devicePixelRatio
    ensures r.left == left && r.top == top && r.right == right && r.bottom == bottom
    ensures r.basePoint == v.basePoint
  {
    var sized := v.(windowWidth := windowWidth, windowHeight := windowHeight, scale := devicePixelRatio,
                    left := left, top := top, right := right, bottom := bottom);
    var panned := sized.(panX := IdealPanX(sized, sceneWidth), panY := IdealPanY(sized, sceneHeight));
    panned.(zoom := IdealZoom(panned, sceneWidth, sceneHeight))
  }

  /** After `setSize` the zoom is ideal for the new size, but the pan is
      the one that would be ideal at the old zoom. */
  lemma SetSizePansWithOldZoom(v: Viewport, sceneWidth: real, sceneHeight: real,
                               windowWidth: real, windowHeight: real, devicePixelRatio: real,
                               left: real, top: real, right: real, bottom: real)
    requires sceneWidth != 0.0 && sceneHeight != 0.0
    ensures var r := SetSize(v, sceneWidth, sceneHeight, windowWidth, windowHeight, devicePixelRatio, left, top, right, bottom);
      && r.zoom == IdealZoom(r, sceneWidth, sceneHeight)
      && r.panX == IdealPanX(r.(zoom := v.zoom), sceneWidth)
      && r.panY == IdealPanY(r.(zoom := v.zoom), sceneHeight)
  {
  }

  /** Calling `setSize` a second time with the same size settles: the
      zoom stays ideal and the pan becomes ideal for it. */
  lemma SetSizeTwiceSettles(v: Viewport, sceneWidth: real, sceneHeight: real,
                            windowWidth: real, windowHeight: real, devicePixelRatio: real,
                            left: real, top: real, right: real, bottom: real)
    requires sceneWidth != 0.0 && sceneHeight != 0.0
    ensures var once := SetSize(v, sceneWidth, sceneHeight, windowWidth, windowHeight, devicePixelRatio, left, top, right, bottom);
      var twice := SetSize(once, sceneWidth, sceneHeight, windowWidth, windowHeight, devicePixelRatio, left, top, right, bottom);
      && twice.zoom == once.zoom
      && twice.panX == IdealPanX(twice, sceneWidth)
      && twice.panY == IdealPanY(twice, sceneHeight)
  {
  }
}
