/** The bounding boxes of things drawn on the circuit grid (GuiElement.kt)
    and their relation to screen pixels: one grid step is `BLOCK_SIZE`
    pixels (GuiUtils.kt). */
module GuiElements {

  /** `GuiUtils.BLOCK_SIZE`. */
  const BLOCK_SIZE: int := 10

  /** A grid coordinate. */
  datatype Point = Point(x: int, y: int)

  /** An element's position and size, in grid units. */
  datatype Rect = Rect(x: int, y: int, width: int, height: int)

  /** The same box in screen pixels (`screenX`, `screenY`, `screenWidth`, `screenHeight`). */
  function Screen(r: Rect): (s: Rect)
    ensures s.x == r.x * BLOCK_SIZE && s.y == r.y * BLOCK_SIZE
    ensures s.width == r.width * BLOCK_SIZE && s.height == r.height * BLOCK_SIZE
  {
    Rect(r.x * BLOCK_SIZE, r.y * BLOCK_SIZE, r.width * BLOCK_SIZE, r.height * BLOCK_SIZE)
  }

  /** `contains(x, y)`: the point lies in the box, edges included. */
  predicate ContainsPoint(r: Rect, px: int, py: int)
  {
    r.x <= px <= r.x + r.width && r.y <= py <= r.y + r.height
  }

  /** `contains(x, y, width, height)`: the other box lies inside this one. */
  predicate Contains(r: Rect, o: Rect)
  {
    o.x >= r.x && o.x + o.width <= r.x + r.width && o.y >= r.y && o.y + o.height <= r.y + r.height
  }

  /** `isWithin(x, y, width, height)`: this box lies inside the other. */
  predicate IsWithin(r: Rect, o: Rect)
  {
    r.x >= o.x && r.x + r.width <= o.x + o.width && r.y >= o.y && r.y + r.height <= o.y + o.height
  }

  /** `intersects(x, y, width, height)`: neither box lies wholly to one side
      of the other, touching edges not counting. */
  predicate Intersects(r: Rect, o: Rect)
  {
    !(o.x >= r.x + r.width || r.x >= o.x + o.width || o.y >= r.y + r.height || r.y >= o.y + o.height)
  }

  /** `containsScreenCoord`. */
  predicate ContainsScreenCoord(r: Rect, px: int, py: int)
  {
    ContainsPoint(Screen(r), px, py)
  }

  /** `isWithinScreenCoord`. */
  predicate IsWithinScreenCoord(r: Rect, o: Rect)
  {
    IsWithin(Screen(r), o)
  }

  /** `intersectsScreenCoord`. */
  predicate IntersectsScreenCoord(r: Rect, o: Rect)
  {
    Intersects(Screen(r), o)
  }

  /** `e.contains(f)` holds exactly when `f.isWithin(e)`, and both are
      reflexive and transitive. */
  lemma ContainsIsWithin(e: Rect, f: Rect, g: Rect)
    ensures Contains(e, f) <==> IsWithin(f, e)
    ensures Contains(e, e)
    ensures IsWithin(e, f) && IsWithin(f, g) ==> IsWithin(e, g)
  {
  }

  /** A box inside another contains only points the other contains. */
  lemma WithinPoints(r: Rect, o: Rect, px: int, py: int)
    requires IsWithin(r, o) && ContainsPoint(r, px, py)
    ensures ContainsPoint(o, px, py)
  {
  }

  /** A unit grid cell with corner (i, j) lying inside the box. */
  predicate HasCell(r: Rect, i: int, j: int)
  {
    r.x <= i && i + 1 <= r.x + r.width && r.y <= j && j + 1 <= r.y + r.height
  }

  /** A box with area: both sides at least one grid step. */
  predicate Solid(r: Rect) { r.width > 0 && r.height > 0 }

  /** `intersects` is symmetric. */
  lemma IntersectsSymmetric(r: Rect, o: Rect)
    ensures Intersects(r, o) == Intersects(o, r)
  {
  }

  /** Two boxes with area intersect exactly when some unit grid cell lies
      inside both, so their interiors overlap. (A box of zero width or
      height, such as a wire's, intersects any box whose open interior its
      edge crosses.) */
  lemma IntersectsSharedCell(r: Rect, o: Rect)
    requires Solid(r) && Solid(o)
    ensures Intersects(r, o) ==> HasCell(r, Max(r.x, o.x), Max(r.y, o.y)) && HasCell(o, Max(r.x, o.x), Max(r.y, o.y))
    ensures forall i, j :: HasCell(r, i, j) && HasCell(o, i, j) ==> Intersects(r, o)
  {
  }

  function Max(a: int, b: int): int { if a >= b then a else b }

  /** Screen-coordinate tests of grid points and grid boxes agree with the
      grid tests, since scaling by `BLOCK_SIZE` preserves order. */
  lemma ScreenAgrees(r: Rect, o: Rect, px: int, py: int)
    ensures ContainsScreenCoord(r, px * BLOCK_SIZE, py * BLOCK_SIZE) <==> ContainsPoint(r, px, py)
    ensures IsWithinScreenCoord(r, Screen(o)) <==> IsWithin(r, o)
    ensures IntersectsScreenCoord(r, Screen(o)) <==> Intersects(r, o)
  {
    ScaleOrder(r.x, px);
    ScaleOrder(px, r.x + r.width);
    ScaleOrder(r.y, py);
    ScaleOrder(py, r.y + r.height);
    ScaleOrder(o.x, r.x);
    ScaleOrder(r.x + r.width, o.x + o.width);
    ScaleOrder(o.y, r.y);
    ScaleOrder(r.y + r.height, o.y + o.height);
    ScaleOrder(r.x + r.width, o.x);
    ScaleOrder(o.x + o.width, r.x);
    ScaleOrder(r.y + r.height, o.y);
    ScaleOrder(o.y + o.height, r.y);
  }

  lemma ScaleOrder(a: int, b: int)
    ensures a <= b <==> a * BLOCK_SIZE <= b * BLOCK_SIZE
    ensures (a + 0) * BLOCK_SIZE == a * BLOCK_SIZE
  {
  }
}
