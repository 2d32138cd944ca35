/** A wire segment on the circuit grid (`LinkWires.Wire`): a horizontal or
    vertical run of `length` grid steps from its origin, always stored with
    a positive length. Equality is structural on (x, y, length, orientation),
    as the class's `equals` is. */
module Wires {
  import opened Wrappers
  import opened GuiElements

  type Pos = n: int | n > 0 witness 1

  datatype Wire = Wire(x: int, y: int, length: Pos, horizontal: bool)

  /** The constructor: a negative length moves the origin back by that much
      and keeps the magnitude; a zero length throws. */
  function NewWire(x: int, y: int, length: int, horizontal: bool): (r: Result<Wire>)
    ensures length == 0 <==> r.Failure?
    ensures r.Failure? ==> r.error == Simulation("Length cannot be 0")
    ensures r.Success? ==> (r.value.horizontal == horizontal
      && r.value.length == (if length < 0 then -length else length)
      && {Start(r.value), End(r.value)} == {Point(x, y), Along(Point(x, y), horizontal, length)})
  {
    if length == 0 then Failure(Simulation("Length cannot be 0"))
    else if length < 0 then
      Success(Wire(if horizontal then x + length else x, if horizontal then y else y + length, -length, horizontal))
    else Success(Wire(x, y, length, horizontal))
  }

  /** The point `d` steps from `p` along the axis. */
  function Along(p: Point, horizontal: bool, d: int): Point
  {
    if horizontal then Point(p.x + d, p.y) else Point(p.x, p.y + d)
  }

  /** The bounding box: the length along the wire's axis, zero across it. */
  function Bounds(w: Wire): (r: Rect)
    ensures r.x == w.x && r.y == w.y
    ensures r.width == (if w.horizontal then w.length else 0)
    ensures r.height == (if w.horizontal then 0 else w.length)
  {
    Rect(w.x, w.y, if w.horizontal then w.length else 0, if w.horizontal then 0 else w.length)
  }

  /** The bounding box contains exactly the grid points on the wire. */
  lemma BoundsHoldWire(w: Wire, px: int, py: int)
    ensures GuiElements.ContainsPoint(Bounds(w), px, py) <==> OnWire(w, Point(px, py))
  {
  }

  /** The wire's connections, one per grid point from the origin to the far
      end: `length + 1` of them. */
  function Points(w: Wire): (r: seq<Point>)
    ensures |r| == w.length + 1
    ensures forall i | 0 <= i < |r| :: r[i] == Along(Point(w.x, w.y), w.horizontal, i)
  {
    seq(w.length + 1, i => Along(Point(w.x, w.y), w.horizontal, i))
  }

  /** `startConnection`: the first connection. */
  function Start(w: Wire): Point
  {
    Point(w.x, w.y)
  }

  /** `endConnection`: the last connection. */
  function End(w: Wire): Point
  {
    Along(Point(w.x, w.y), w.horizontal, w.length)
  }

  /** The point lies on the wire, ends included. */
  predicate OnWire(w: Wire, p: Point)
  {
    if w.horizontal then p.y == w.y && w.x <= p.x <= w.x + w.length
    else p.x == w.x && w.y <= p.y <= w.y + w.length
  }

  /** The wire's connections are exactly the grid points on it, the first
      being its start and the last its end. */
  lemma PointsOnWire(w: Wire, p: Point)
    ensures p in Points(w) <==> OnWire(w, p)
    ensures Points(w)[0] == Start(w) && Points(w)[w.length] == End(w)
  {
    if OnWire(w, p) {
      var i := if w.horizontal then p.x - w.x else p.y - w.y;
      assert Points(w)[i] == p;
    }
  }

  /** `isWithin`: the same orientation and a bounding box inside the other's. */
  predicate IsWithin(w: Wire, other: Wire)
  {
    other.horizontal == w.horizontal && GuiElements.IsWithin(Bounds(w), Bounds(other))
  }

  /** `overlaps`: the same orientation, the same row or column, and open
      ranges that intersect, so wires meeting end to end do not overlap. */
  predicate Overlaps(w: Wire, other: Wire)
  {
    other.horizontal == w.horizontal &&
    if other.horizontal then
      other.y == w.y && !(other.x >= w.x + w.length || w.x >= other.x + other.length)
    else
      other.x == w.x && !(other.y >= w.y + w.length || w.y >= other.y + other.length)
  }

  /** The unit step of the wire from `p` to the next grid point along it. */
  predicate HasStep(w: Wire, p: Point)
  {
    OnWire(w, p) && OnWire(w, Along(p, w.horizontal, 1))
  }

  /** A wire lies within another exactly when, with the same orientation,
      every grid point of the one is a grid point of the other. */
  lemma IsWithinPoints(w: Wire, other: Wire)
    ensures IsWithin(w, other) <==>
      other.horizontal == w.horizontal && forall p :: OnWire(w, p) ==> OnWire(other, p)
  {
    if other.horizontal == w.horizontal && forall p :: OnWire(w, p) ==> OnWire(other, p) {
      assert OnWire(w, Start(w));
      assert OnWire(w, End(w));
    }
  }

  /** Two wires overlap exactly when they share a unit step; so overlapping
      is symmetric, and a wire within another overlaps it. */
  lemma OverlapsSharedStep(w: Wire, other: Wire)
    ensures Overlaps(w, other) <==>
      other.horizontal == w.horizontal && exists p :: HasStep(w, p) && HasStep(other, p)
    ensures Overlaps(w, other) == Overlaps(other, w)
    ensures IsWithin(w, other) ==> Overlaps(w, other)
  {
    if Overlaps(w, other) {
      var p := if w.horizontal then Point(Max(w.x, other.x), w.y) else Point(w.x, Max(w.y, other.y));
      assert HasStep(w, p) && HasStep(other, p);
    }
  }

  /** A wire written from either end is the same wire. */
  lemma NewWireReversed(x: int, y: int, length: int, horizontal: bool)
    requires length != 0
    ensures var e := Along(Point(x, y), horizontal, length);
      NewWire(x, y, length, horizontal) == NewWire(e.x, e.y, -length, horizontal)
  {
  }
}
