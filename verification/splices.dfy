/** Cutting and joining wires on the board (the private helpers
    `spliceWire`, `spliceOverlappingWire`, `splitWire` and the fusing step
    of `rejoinWires` in CircuitBoard.kt). Each is stated as a partition of
    the unit steps the wires cover. */
module Splices {
  import opened Wrappers
  import GuiElements
  import opened Wires

  /** Some wire of the list covers the unit step at `p`. */
  predicate Covers(ws: seq<Wire>, p: GuiElements.Point)
  {
    exists i | 0 <= i < |ws| :: HasStep(ws[i], p)
  }

  /** `spliceWire`: the pieces of `toSplice` left after cutting out the part
      `within` covers, at most one before it and one after it. */
  function SpliceWire(toSplice: Wire, within: Wire): (r: Result<seq<Wire>>)
    ensures r.Failure? <==> !IsWithin(within, toSplice)
    ensures r.Failure? ==> r.error == IllegalArgument("toSplice must contain within")
    ensures r.Success? ==> |r.value| <= 2
    ensures r.Success? ==> forall i | 0 <= i < |r.value| ::
      r.value[i].horizontal == toSplice.horizontal && IsWithin(r.value[i], toSplice)
    ensures r.Success? ==> forall p ::
      HasStep(toSplice, p) <==> (HasStep(within, p) || Covers(r.value, p))
    ensures r.Success? ==> forall i, p | 0 <= i < |r.value| :: !(HasStep(r.value[i], p) && HasStep(within, p))
    ensures r.Success? && |r.value| == 2 ==> forall p :: !(HasStep(r.value[0], p) && HasStep(r.value[1], p))
  {
    if !IsWithin(within, toSplice) then Failure(IllegalArgument("toSplice must contain within"))
    else
      var before, after := Before(toSplice, within), After(toSplice, within);
      SpliceCovers(toSplice, within);
      Success(before + after)
  }

  /** The piece of `toSplice` before `within`, if any. */
  function Before(toSplice: Wire, within: Wire): (r: seq<Wire>)
    requires IsWithin(within, toSplice)
    ensures |r| <= 1
  {
    if toSplice.horizontal then
      if toSplice.x < within.x then [Wire(toSplice.x, toSplice.y, within.x - toSplice.x, true)] else []
    else
      if toSplice.y < within.y then [Wire(toSplice.x, toSplice.y, within.y - toSplice.y, false)] else []
  }

  /** The piece of `toSplice` after `within`, if any. */
  function After(toSplice: Wire, within: Wire): (r: seq<Wire>)
    requires IsWithin(within, toSplice)
    ensures |r| <= 1
  {
    if toSplice.horizontal then
      var withinEnd := within.x + within.length;
      var toSpliceEnd := toSplice.x + toSplice.length;
      if withinEnd < toSpliceEnd then [Wire(withinEnd, toSplice.y, toSpliceEnd - withinEnd, true)] else []
    else
      var withinEnd := within.y + within.length;
      var toSpliceEnd := toSplice.y + toSplice.length;
      if withinEnd < toSpliceEnd then [Wire(toSplice.x, withinEnd, toSpliceEnd - withinEnd, false)] else []
  }

  lemma SpliceCovers(toSplice: Wire, within: Wire)
    requires IsWithin(within, toSplice)
    ensures var ps := Before(toSplice, within) + After(toSplice, within);
      && (forall i | 0 <= i < |ps| :: ps[i].horizontal == toSplice.horizontal && IsWithin(ps[i], toSplice))
      && (forall p :: HasStep(toSplice, p) <==> (HasStep(within, p) || Covers(ps, p)))
      && (forall i, p | 0 <= i < |ps| :: !(HasStep(ps[i], p) && HasStep(within, p)))
      && (|ps| == 2 ==> forall p :: !(HasStep(ps[0], p) && HasStep(ps[1], p)))
  {
    var b, a := Before(toSplice, within), After(toSplice, within);
    var ps := b + a;
    forall p
      ensures HasStep(toSplice, p) <==> (HasStep(within, p) || Covers(ps, p))
    {
      if HasStep(toSplice, p) && !HasStep(within, p) {
        if |b| == 1 && HasStep(b[0], p) {
          assert ps[0] == b[0];
        } else {
          assert ps[|ps| - 1] == a[0];
        }
      }
    }
  }

  /** The three pieces `spliceOverlappingWire` returns. */
  datatype Pieces = Pieces(first: Wire, middle: Wire, third: Wire)

  /** `spliceOverlappingWire`: with `toSplice` and `overlap` overlapping,
      the part of `toSplice` outside `overlap`, the shared middle and the
      part of `overlap` outside `toSplice`. A piece of length zero makes the
      wire constructor throw. */
  function SpliceOverlappingWire(toSplice: Wire, overlap: Wire): (r: Result<Pieces>)
    ensures !Overlaps(toSplice, overlap) ==> r == Failure(IllegalArgument("wires must overlap"))
    ensures r.Success? ==>
      r.value.first.horizontal == r.value.middle.horizontal == r.value.third.horizontal == toSplice.horizontal
  {
    if !Overlaps(toSplice, overlap) then Failure(IllegalArgument("wires must overlap"))
    else if toSplice.horizontal then
      var left := if toSplice.x < overlap.x then toSplice else overlap;
      var right := if toSplice.x < overlap.x then overlap else toSplice;
      var leftPiece :- NewWire(left.x, left.y, right.x - left.x, true);
      var midPiece := Wire(right.x, right.y, left.x + left.length - right.x, true);
      var rightPiece :- NewWire(left.x + left.length, left.y, right.x + right.length - left.x - left.length, true);
      Success(if left == toSplice then Pieces(leftPiece, midPiece, rightPiece) else Pieces(rightPiece, midPiece, leftPiece))
    else
      var top := if toSplice.y < overlap.y then toSplice else overlap;
      var bottom := if toSplice.y < overlap.y then overlap else toSplice;
      var topPiece :- NewWire(top.x, top.y, bottom.y - top.y, false);
      var midPiece := Wire(bottom.x, bottom.y, top.y + top.length - bottom.y, false);
      var bottomPiece :- NewWire(top.x, top.y + top.length, bottom.y + bottom.length - top.y - top.length, false);
      Success(if top == toSplice then Pieces(topPiece, midPiece, bottomPiece) else Pieces(bottomPiece, midPiece, topPiece))
  }

  /** When two wires overlap but neither lies within the other (the only
      way the board calls it), the splice succeeds and its three pieces
      are exactly the steps of `toSplice` alone, of both, and of `overlap`
      alone. */
  lemma SpliceOverlappingPartition(toSplice: Wire, overlap: Wire)
    requires Overlaps(toSplice, overlap) && !IsWithin(toSplice, overlap) && !IsWithin(overlap, toSplice)
    ensures SpliceOverlappingWire(toSplice, overlap).Success?
    ensures var t := SpliceOverlappingWire(toSplice, overlap).value;
      forall p :: ThreeWay(t, toSplice, overlap, p)
  {
    if toSplice.horizontal {
      if toSplice.x < overlap.x {
        HorizontalThree(toSplice, overlap);
      } else {
        HorizontalThree(overlap, toSplice);
      }
    } else {
      if toSplice.y < overlap.y {
        VerticalThree(toSplice, overlap);
      } else {
        VerticalThree(overlap, toSplice);
      }
    }
  }

  /** Two overlapping horizontal wires, `l` starting first and `r` ending
      last, split into the three pieces the splice builds. */
  lemma HorizontalThree(l: Wire, r: Wire)
    requires l.horizontal && r.horizontal && l.y == r.y
    requires l.x < r.x < l.x + l.length < r.x + r.length
    ensures var t := SpliceOverlappingWire(l, r);
      t.Success? && t.value == Pieces(Wire(l.x, l.y, r.x - l.x, true), Wire(r.x, r.y, l.x + l.length - r.x, true),
        Wire(l.x + l.length, l.y, r.x + r.length - l.x - l.length, true))
    ensures var t := SpliceOverlappingWire(r, l);
      t.Success? && t.value == Pieces(Wire(l.x + l.length, l.y, r.x + r.length - l.x - l.length, true),
        Wire(r.x, r.y, l.x + l.length - r.x, true), Wire(l.x, l.y, r.x - l.x, true))
    ensures forall p :: ThreeWay(SpliceOverlappingWire(l, r).value, l, r, p)
    ensures forall p :: ThreeWay(SpliceOverlappingWire(r, l).value, r, l, p)
  {
  }

  /** The vertical counterpart of `HorizontalThree`. */
  lemma VerticalThree(t: Wire, b: Wire)
    requires !t.horizontal && !b.horizontal && t.x == b.x
    requires t.y < b.y < t.y + t.length < b.y + b.length
    ensures var s := SpliceOverlappingWire(t, b);
      s.Success? && s.value == Pieces(Wire(t.x, t.y, b.y - t.y, false), Wire(b.x, b.y, t.y + t.length - b.y, false),
        Wire(t.x, t.y + t.length, b.y + b.length - t.y - t.length, false))
    ensures var s := SpliceOverlappingWire(b, t);
      s.Success? && s.value == Pieces(Wire(t.x, t.y + t.length, b.y + b.length - t.y - t.length, false),
        Wire(b.x, b.y, t.y + t.length - b.y, false), Wire(t.x, t.y, b.y - t.y, false))
    ensures forall p :: ThreeWay(SpliceOverlappingWire(t, b).value, t, b, p)
    ensures forall p :: ThreeWay(SpliceOverlappingWire(b, t).value, b, t, p)
  {
  }

  /** The first piece holds the steps of `a` alone, the middle those of both
      and the third those of `b` alone. */
  predicate ThreeWay(t: Pieces, a: Wire, b: Wire, p: GuiElements.Point)
  {
    && (HasStep(t.first, p) <==> HasStep(a, p) && !HasStep(b, p))
    && (HasStep(t.middle, p) <==> HasStep(a, p) && HasStep(b, p))
    && (HasStep(t.third, p) <==> HasStep(b, p) && !HasStep(a, p))
  }

  /** `splitWire`: the wire cut in two at a point on it; the first piece runs
      from the wire's start to the point and the second from the point to
      the end. Cutting at either end makes a zero-length piece, which throws. */
  function SplitWire(w: Wire, at: GuiElements.Point): (r: Result<(Wire, Wire)>)
    ensures OnWire(w, at) ==> (r.Success? <==> at != Start(w) && at != End(w))
    ensures OnWire(w, at) && r.Failure? ==> r.error == Simulation("Length cannot be 0")
    ensures OnWire(w, at) && r.Success? ==> Start(r.value.0) == Start(w) && Start(r.value.1) == at
    ensures r.Success? ==> r.value.0.horizontal == w.horizontal && r.value.1.horizontal == w.horizontal
  {
    var len := if at.x == w.x then at.y - w.y else at.x - w.x;
    var first :- NewWire(w.x, w.y, len, w.horizontal);
    var second :- NewWire(at.x, at.y, w.length - len, w.horizontal);
    Success((first, second))
  }

  /** Cutting a wire at an inner point gives two wires meeting at the point
      that cover the wire's steps between them, without sharing one. */
  lemma SplitWirePartition(w: Wire, at: GuiElements.Point)
    requires OnWire(w, at) && at != Start(w) && at != End(w)
    ensures var (a, b) := SplitWire(w, at).value;
      End(a) == at && End(b) == End(w)
      && forall p :: (HasStep(w, p) <==> HasStep(a, p) || HasStep(b, p)) && !(HasStep(a, p) && HasStep(b, p))
  {
  }

  /** The fusing step of `rejoinWires`: the wire grows by the length of a
      same-orientation wire meeting it, and its origin moves to the smaller
      coordinates. */
  function Fuse(w: Wire, other: Wire): (r: Wire)
    ensures r.length == w.length + other.length && r.horizontal == w.horizontal
  {
    Wire(Min(w.x, other.x), Min(w.y, other.y), w.length + other.length, w.horizontal)
  }

  function Min(a: int, b: int): int { if a <= b then a else b }

  /** Fusing two collinear wires that meet end to end, in either order, gives
      the wire covering exactly the steps and points of both. */
  lemma FuseJoins(w: Wire, other: Wire)
    requires w.horizontal == other.horizontal
    requires End(other) == Start(w) || End(w) == Start(other)
    ensures var f := Fuse(w, other);
      forall p :: (HasStep(f, p) <==> HasStep(w, p) || HasStep(other, p))
        && (OnWire(f, p) <==> OnWire(w, p) || OnWire(other, p))
  {
  }
}
