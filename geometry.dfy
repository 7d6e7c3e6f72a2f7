/** Pure geometry of the area selector: turning a pointer position into a
    point local to the element (#getMousePositionInElement) and turning two
    such points into the numbers written on the overlay (#updateArea).
    Coordinates are exact reals standing for CSS pixels. */
module Geometry {

  /** A point local to the element: `x` is measured rightwards from the
      element's left edge, `y` downwards from its top edge. */
  datatype Point = Point(x: real, y: real)

  /** The part of the element's bounding client rectangle that the selector
      reads: position in the viewport and size. */
  datatype ClientRect = ClientRect(left: real, top: real, width: real, height: real)
  {
    /** A bounding client rectangle of a laid-out element has no negative size. */
    predicate Valid() { width >= 0.0 && height >= 0.0 }
  }

  /** The overlay's numeric style values. As in CSS, `left` and `width` are
      horizontal, `top` and `height` vertical. */
  datatype Box = Box(top: real, left: real, width: real, height: real)

  function Min(a: real, b: real): real { if a <= b then a else b }
  function Max(a: real, b: real): real { if a <= b then b else a }
  function Abs(a: real): real { if a < 0.0 then -a else a }

  /** The clamp applied to one axis: offsets at or left of the start collapse
      to 0, offsets past the extent collapse to the extent, the rest pass
      through. Nothing is rounded. */
  function Clamp(offset: real, extent: real): (r: real)
    ensures extent >= 0.0 ==> 0.0 <= r <= extent
    ensures 0.0 < offset <= extent ==> r == offset
    ensures offset <= 0.0 ==> r == 0.0
    ensures offset > 0.0 && offset > extent ==> r == extent
  {
    if offset <= 0.0 then 0.0
    else if offset > extent then extent
    else offset
  }

  /** The clamped value is the point of [0, extent] nearest to the offset. */
  lemma ClampIsNearest(offset: real, extent: real, c: real)
    requires 0.0 <= c <= extent
    ensures Abs(Clamp(offset, extent) - offset) <= Abs(c - offset)
  {
  }

  /** Clamping an already clamped value changes nothing. */
  lemma ClampIdempotent(offset: real, extent: real)
    requires extent >= 0.0
    ensures Clamp(Clamp(offset, extent), extent) == Clamp(offset, extent)
  {
  }

  /** Clamping preserves the order of offsets on one axis. */
  lemma ClampMonotonic(a: real, b: real, extent: real)
    requires extent >= 0.0 && a <= b
    ensures Clamp(a, extent) <= Clamp(b, extent)
  {
  }

  /** The point lies on the element's own box, edges included. */
  predicate InElement(p: Point, bounds: ClientRect)
  {
    0.0 <= p.x <= bounds.width && 0.0 <= p.y <= bounds.height
  }

  /** #getMousePositionInElement: the pointer position made relative to the
      element's bounding box and clamped into it. Scroll offsets of the
      element are not added. */
  function LocalPoint(mouseX: real, mouseY: real, bounds: ClientRect): (p: Point)
    ensures bounds.Valid() ==> InElement(p, bounds)
    ensures 0.0 < mouseX - bounds.left <= bounds.width ==> p.x == mouseX - bounds.left
    ensures 0.0 < mouseY - bounds.top <= bounds.height ==> p.y == mouseY - bounds.top
    ensures mouseX - bounds.left <= 0.0 ==> p.x == 0.0
    ensures mouseY - bounds.top <= 0.0 ==> p.y == 0.0
    ensures mouseX - bounds.left > 0.0 && mouseX - bounds.left > bounds.width ==> p.x == bounds.width
    ensures mouseY - bounds.top > 0.0 && mouseY - bounds.top > bounds.height ==> p.y == bounds.height
  {
    Point(Clamp(mouseX - bounds.left, bounds.width), Clamp(mouseY - bounds.top, bounds.height))
  }

  /** A pointer position already inside the element is only translated. */
  lemma LocalPointInside(mouseX: real, mouseY: real, bounds: ClientRect)
    requires InElement(Point(mouseX - bounds.left, mouseY - bounds.top), bounds)
    ensures LocalPoint(mouseX, mouseY, bounds) == Point(mouseX - bounds.left, mouseY - bounds.top)
  {
  }

  /** Every point of the element is the local point of some pointer position,
      namely the one at that offset from the element's corner. */
  lemma LocalPointOnto(p: Point, bounds: ClientRect)
    requires InElement(p, bounds)
    ensures LocalPoint(bounds.left + p.x, bounds.top + p.y, bounds) == p
  {
  }

  // ---------------------------------------------------------------------
  // The rectangle drawn from two points

  /** `inner` lies within `outer`. */
  predicate Contains(outer: Box, inner: Box)
  {
    && outer.left <= inner.left && inner.left + inner.width <= outer.left + outer.width
    && outer.top <= inner.top && inner.top + inner.height <= outer.top + outer.height
  }

  /** `p` lies within the box, reading the box as CSS lays it out. */
  predicate Covers(b: Box, p: Point)
  {
    b.left <= p.x <= b.left + b.width && b.top <= p.y <= b.top + b.height
  }

  /** Reference definition: the box a drag from `p` to `q` sweeps out, with
      each coordinate on its own axis. */
  function BoundingBox(p: Point, q: Point): (b: Box)
    ensures b.width >= 0.0 && b.height >= 0.0
    ensures Covers(b, p) && Covers(b, q)
  {
    Box(top := Min(p.y, q.y), left := Min(p.x, q.x), width := Abs(p.x - q.x), height := Abs(p.y - q.y))
  }

  /** The bounding box is the smallest box that covers both points. */
  lemma BoundingBoxIsSmallest(p: Point, q: Point, c: Box)
    requires Covers(c, p) && Covers(c, q)
    ensures Contains(c, BoundingBox(p, q))
  {
  }

  /** The same box with its `top` and `left` exchanged. */
  function SwapOrigin(b: Box): Box
  {
    Box(top := b.left, left := b.top, width := b.width, height := b.height)
  }

  /** #updateArea's numbers. As written, `top` is taken from the x coordinates
      and `left` from the y coordinates, while `width` and `height` use the
      matching axes: the overlay has the size of the dragged box but its corner
      mirrored across the diagonal. */
  function AreaOf(start: Point, end: Point): (b: Box)
    ensures b == SwapOrigin(BoundingBox(start, end))
    ensures b.width >= 0.0 && b.height >= 0.0
    ensures b.top <= start.x <= b.top + b.width && b.top <= end.x <= b.top + b.width
    ensures b.left <= start.y <= b.left + b.height && b.left <= end.y <= b.left + b.height
    ensures b.top + b.width == Max(start.x, end.x) && b.left + b.height == Max(start.y, end.y)
  {
    Box(top := Min(start.x, end.x), left := Min(start.y, end.y),
        width := Abs(start.x - end.x), height := Abs(start.y - end.y))
  }

  /** The order of the two points does not matter. */
  lemma AreaOfSymmetric(start: Point, end: Point)
    ensures AreaOf(start, end) == AreaOf(end, start)
  {
  }

  /** A zero-length drag draws an empty box at the mirrored point. */
  lemma AreaOfSamePoint(p: Point)
    ensures AreaOf(p, p) == Box(top := p.x, left := p.y, width := 0.0, height := 0.0)
  {
  }

  /** The overlay coincides with the dragged box exactly when the dragged box's
      corner lies on the diagonal, i.e. when the axis swap has no effect. */
  lemma AreaOfCorrectIff(start: Point, end: Point)
    ensures AreaOf(start, end) == BoundingBox(start, end) <==> Min(start.x, end.x) == Min(start.y, end.y)
  {
  }

  /** A drag whose points the drawn overlay does not cover: from (10, 50) to
      (20, 60) the overlay spans x in [50, 60] and y in [10, 20]. */
  lemma AreaOfMissesDraggedPoints()
    ensures !Covers(AreaOf(Point(10.0, 50.0), Point(20.0, 60.0)), Point(10.0, 50.0))
    ensures !Covers(AreaOf(Point(10.0, 50.0), Point(20.0, 60.0)), Point(20.0, 60.0))
  {
  }
}
