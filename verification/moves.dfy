// Dragging elements on the board: `initMove` lifts them, `moveElements`
// keeps their offset from where the drag began, and `finalizeMove` puts
// them down again, or back where they came from when the new place is not
// allowed.

module Moves {
  import opened Wrappers
  import opened OrderedSets
  import opened GuiElements
  import opened Wires
  import opened Connections
  import opened Links
  import opened Boards
  import Wiring
  import Placement
  import Removal
  import Routing
  import PathFinding

  // ---- the dragged elements and the board's list ----

  /** The first dragged component with the given identity, if any. */
  function Dragged(es: seq<Element>, id: nat): (r: Option<Peer>)
    ensures r.Some? ==> ComponentElement(r.value) in es && r.value.id == id
    ensures r.None? ==> forall e | e in es :: !(e.ComponentElement? && e.peer.id == id)
  {
    if es == [] then None
    else if es[0].ComponentElement? && es[0].peer.id == id then Some(es[0].peer)
    else
      assert forall e | e in es[1..] :: e in es;
      Dragged(es[1..], id)
  }

  /** The board's components seen through the drag: a dragged component is
      the same object as the one on the board's list, so the list shows it
      where it is dragged to. */
  function Follow(ds: seq<Peer>, es: seq<Element>): (r: seq<Peer>)
    ensures |r| == |ds|
    ensures forall i | 0 <= i < |ds| :: r[i].id == ds[i].id
    ensures forall i | 0 <= i < |ds| :: Dragged(es, ds[i].id).None? ==> r[i] == ds[i]
    ensures forall i | 0 <= i < |ds| :: Dragged(es, ds[i].id).Some? ==> ComponentElement(r[i]) in es
  {
    seq(|ds|, i requires 0 <= i < |ds| =>
      match Dragged(es, ds[i].id) case Some(c) => c case None => ds[i])
  }

  /** The board with `es` as the dragged elements, its list following them. */
  function Carry(b: Board, es: seq<Element>): (r: Board)
    ensures r.moving == Some(es) && r.links == b.links && r.index == b.index
    ensures r.delta == b.delta && r.rejoin == b.rejoin && r.anchored == b.anchored
  {
    b.(moving := Some(es), components := Follow(b.components, es))
  }

  /** Moving every element by one offset and then by another is moving it
      by their sum. */
  lemma ShiftAllTwice(es: seq<Element>, dx1: int, dy1: int, dx2: int, dy2: int)
    ensures ShiftAll(ShiftAll(es, dx1, dy1), dx2, dy2) == ShiftAll(es, dx1 + dx2, dy1 + dy2)
  {
    var a := ShiftAll(ShiftAll(es, dx1, dy1), dx2, dy2);
    var b := ShiftAll(es, dx1 + dx2, dy1 + dy2);
    forall i | 0 <= i < |es|
      ensures a[i] == b[i]
    {
      match es[i]
      case ComponentElement(c) =>
      case WireElement(w) =>
    }
  }

  /** Moving by nothing changes nothing. */
  lemma ShiftAllZero(es: seq<Element>)
    ensures ShiftAll(es, 0, 0) == es
  {
    forall i | 0 <= i < |es|
      ensures ShiftAll(es, 0, 0)[i] == es[i]
    {
      match es[i]
      case ComponentElement(c) =>
      case WireElement(w) =>
    }
  }

  /** Moving keeps each component's identity and which elements are
      components, so a moved component is found where the unmoved one was. */
  lemma DraggedShift(es: seq<Element>, dx: int, dy: int, id: nat)
    ensures Dragged(ShiftAll(es, dx, dy), id).Some? == Dragged(es, id).Some?
    ensures Dragged(es, id).Some? ==> Dragged(ShiftAll(es, dx, dy), id) == Some(Dragged(es, id).value.(x := Dragged(es, id).value.x + dx, y := Dragged(es, id).value.y + dy))
  {
    if es != [] {
      assert ShiftAll(es, dx, dy)[1..] == ShiftAll(es[1..], dx, dy);
      DraggedShift(es[1..], dx, dy, id);
    }
  }

  /** Following a moved drag is following the drag as it is now. */
  lemma FollowShift(ds: seq<Peer>, es: seq<Element>, dx: int, dy: int)
    ensures Follow(Follow(ds, es), ShiftAll(es, dx, dy)) == Follow(ds, ShiftAll(es, dx, dy))
  {
    var a := Follow(Follow(ds, es), ShiftAll(es, dx, dy));
    var b := Follow(ds, ShiftAll(es, dx, dy));
    forall i | 0 <= i < |ds|
      ensures a[i] == b[i]
    {
      DraggedShift(es, dx, dy, ds[i].id);
    }
  }

  // ---- moveElements ----

  /** No drag under way means no offset. */
  predicate Idle(b: Board)
  {
    b.moving.None? ==> b.delta == Point(0, 0)
  }

  /** The drag state keeps track of the elements' starting places: the
      dragged elements are those places moved by the current offset, and
      the board's list shows them there. */
  predicate Offset(b: Board, origin: seq<Element>, components: seq<Peer>)
  {
    && b.moving == Some(ShiftAll(origin, b.delta.x, b.delta.y))
    && b.components == Follow(components, b.moving.value)
  }

  /** `moveElements(dx, dy)` without extended wires: nothing when the offset
      is already (dx, dy) or nothing is dragged; otherwise every dragged
      element moves by the change of offset, and the offset becomes
      (dx, dy). */
  function MoveElements(b: Board, dx: int, dy: int): (r: Board)
    ensures b.delta == Point(dx, dy) || b.moving.None? ==> r == b
    ensures b.moving.Some? ==> r.delta == Point(dx, dy) && r.moving.Some?
    ensures r.links == b.links && r.index == b.index && r.rejoin == b.rejoin && r.anchored == b.anchored
    ensures Idle(b) ==> Idle(r)
  {
    if b.delta == Point(dx, dy) then b
    else if b.moving.None? then b
    else
      Carry(b, ShiftAll(b.moving.value, dx - b.delta.x, dy - b.delta.y)).(delta := Point(dx, dy))
  }

  /** Each dragged element ends at its starting place plus (dx, dy),
      however it got there. */
  lemma {:induction false} MoveElementsOffset(b: Board, origin: seq<Element>, components: seq<Peer>, dx: int, dy: int)
    requires Offset(b, origin, components)
    ensures Offset(MoveElements(b, dx, dy), origin, components)
    ensures MoveElements(b, dx, dy).moving == Some(ShiftAll(origin, dx, dy))
  {
    var ex, ey := dx - b.delta.x, dy - b.delta.y;
    ShiftAllTwice(origin, b.delta.x, b.delta.y, ex, ey);
    FollowShift(components, b.moving.value, ex, ey);
    ShiftAllTwice(origin, b.delta.x, b.delta.y, ex, ey);
    assert ShiftAll(ShiftAll(origin, b.delta.x, b.delta.y), ex, ey) == ShiftAll(origin, dx, dy);
  }

  /** Dragging to one offset and then to another is dragging straight to
      the second. */
  lemma MoveElementsTwice(b: Board, origin: seq<Element>, components: seq<Peer>, dx1: int, dy1: int, dx2: int, dy2: int)
    requires Offset(b, origin, components)
    ensures MoveElements(MoveElements(b, dx1, dy1), dx2, dy2) == MoveElements(b, dx2, dy2)
  {
    MoveElementsOffset(b, origin, components, dx1, dy1);
    MoveElementsOffset(b, origin, components, dx2, dy2);
    var b1 := MoveElements(b, dx1, dy1);
    MoveElementsOffset(b1, origin, components, dx2, dy2);
  }

  /** `moveElements(dx, dy, true)`: the drag, then the route computation
      for the collected anchors over the board as it is after the drag.
      Nothing is computed when the drag changed nothing. */
  function MoveAndRoute(b: Board, ports: seq<Connection>, dx: int, dy: int,
                        tie: seq<PathFinding.Node> -> nat, interrupted: nat -> bool): (r: (Board, Option<Routing.Computed>))
    ensures r.0 == MoveElements(b, dx, dy)
    ensures r.1.Some? <==> b.delta != Point(dx, dy) && b.moving.Some?
    ensures r.1.Some? ==> forall c | c in r.1.value.failed :: exists p | p in ports :: c == Moved(p, dx, dy)
  {
    var b1 := MoveElements(b, dx, dy);
    if b.delta == Point(dx, dy) || b.moving.None? then (b1, None)
    else (b1, Some(Routing.ComputeMove(b1, ports, dx, dy, tie, interrupted)))
  }

  // ---- finalizeMove ----

  /** The dragged elements that may not be put down where they are: a
      component at an invalid location or a wire starting at a negative
      coordinate. */
  function Misplaced(b: Board, es: seq<Element>): (r: bool)
    ensures r <==> exists e | e in es ::
      (e.ComponentElement? && !IsValidLocation(b, e.peer)) || (e.WireElement? && (e.wire.x < 0 || e.wire.y < 0))
  {
    if es == [] then false
    else
      assert forall e | e in es :: e == es[0] || e in es[1..];
      var e := es[0];
      ((e.ComponentElement? && !IsValidLocation(b, e.peer)) || (e.WireElement? && (e.wire.x < 0 || e.wire.y < 0)))
      || Misplaced(b, es[1..])
  }

  function WireElements(ws: seq<Wire>): (r: seq<Element>)
    ensures |r| == |ws| && forall i | 0 <= i < |ws| :: r[i] == WireElement(ws[i])
  {
    seq(|ws|, i requires 0 <= i < |ws| => WireElement(ws[i]))
  }

  /** What the put-down places: after a rollback the elements where the
      drag began and nothing routed; otherwise the dragged elements, then
      the routes. */
  datatype Plan = Plan(rollback: bool, elements: seq<Element>, toAdd: seq<Wire>, toRemove: seq<Wire>)

  function PlanMove(b: Board, result: Option<Routing.Computed>): (r: Plan)
    requires b.moving.Some?
    ensures r.rollback <==> Misplaced(b, b.moving.value)
    ensures r.rollback ==> r.elements == ShiftAll(b.moving.value, -b.delta.x, -b.delta.y) && r.toAdd == [] && r.toRemove == []
    ensures !r.rollback ==> r.elements == b.moving.value
    ensures !r.rollback && result.Some? ==> r.toAdd == result.value.toAdd && r.toRemove == result.value.toRemove
    ensures !r.rollback && result.None? ==> r.toAdd == [] && r.toRemove == []
  {
    var es := b.moving.value;
    if Misplaced(b, es) then Plan(true, ShiftAll(es, -b.delta.x, -b.delta.y), [], [])
    else match result
      case Some(c) => Plan(false, es, c.toAdd, c.toRemove)
      case None => Plan(false, es, [], [])
  }

  /** A rollback puts every element back where the drag began and adds no
      routed wire. */
  lemma RollbackRestores(b: Board, origin: seq<Element>, components: seq<Peer>, result: Option<Routing.Computed>)
    requires Offset(b, origin, components) && Misplaced(b, b.moving.value)
    ensures PlanMove(b, result).elements == origin && PlanMove(b, result).toAdd == []
    ensures Carry(b, origin).components == Follow(components, origin)
  {
    ShiftAllTwice(origin, b.delta.x, b.delta.y, -b.delta.x, -b.delta.y);
    ShiftAllZero(origin);
    FollowShift(components, b.moving.value, -b.delta.x, -b.delta.y);
  }

  /** The put-down so far: the board, the dragged wires placed as they are
      (kept for the new selection) and the last failure. */
  datatype Placing = Placing(board: Board, selected: seq<Wire>, fault: Option<Fault>)

  /** Each element added in turn: a component with its wires split, a wire
      through `addWire`. A failure leaves the board as it was and replaces
      the failure remembered; the others are still added. A dragged wire
      placed without a rollback is remembered unless it is also a route. */
  function PlaceAll(p: Placing, es: seq<Element>, toAdd: seq<Wire>, rollback: bool): (r: Placing)
    ensures forall w | w in r.selected :: w in p.selected || (!rollback && WireElement(w) in es && w !in toAdd)
    ensures r.fault.None? ==> p.fault.None?
    ensures r.board.moving == p.board.moving && r.board.delta == p.board.delta && r.board.rejoin == p.board.rejoin
    ensures forall d | d in p.board.components :: d in r.board.components
    ensures forall c | ComponentElement(c) in es && r.fault.None? :: c in r.board.components
    decreases |es|
  {
    if es == [] then p
    else
      assert forall e | e in es[1..] :: e in es;
      match es[0]
      case ComponentElement(c) =>
        (match Placement.AddComponent(p.board, c, true, None)
         case Success(b1) => PlaceAll(p.(board := b1), es[1..], toAdd, rollback)
         case Failure(f) => PlaceAll(p.(fault := Some(f)), es[1..], toAdd, rollback))
      case WireElement(w) =>
        (match Wiring.AddWire(p.board, Wiring.Request(w.x, w.y, w.length, w.horizontal))
         case Success(b1) =>
           var keep := if !rollback && w !in toAdd then p.selected + [w] else p.selected;
           PlaceAll(p.(board := b1, selected := keep), es[1..], toAdd, rollback)
         case Failure(f) => PlaceAll(p.(fault := Some(f)), es[1..], toAdd, rollback))
  }

  /** The wires of the nets that are, or overlap, a placed dragged wire. */
  function Reselect(links: seq<LinkWires>, selected: seq<Wire>): (r: seq<Wire>)
    ensures forall w :: w in r <==> Listed(links, w) && (w in selected || exists s | s in selected :: Overlaps(s, w))
  {
    if links == [] then []
    else
      var mine := Split(links[0].wires, w => w in selected || exists s | s in selected :: Overlaps(s, w)).0;
      assert forall w | Listed(links, w) :: w in links[0].wires || Listed(links[1..], w) by {
        forall w | Listed(links, w) ensures w in links[0].wires || Listed(links[1..], w) {
          var k :| 0 <= k < |links| && w in links[k].wires;
          if k > 0 { assert links[1..][k - 1] == links[k]; }
        }
      }
      assert forall w | Listed(links[1..], w) :: Listed(links, w) by {
        forall w | Listed(links[1..], w) ensures Listed(links, w) {
          var k :| 0 <= k < |links[1..]| && w in links[1..][k].wires;
          assert links[k + 1] == links[1..][k];
        }
      }
      InsertAll(mine, Reselect(links[1..], selected))
  }

  /** The selection after a put-down: the dragged components, then the
      listed wires that are or overlap a placed dragged wire. */
  function Selection(moved: seq<Element>, links: seq<LinkWires>, selected: seq<Wire>): (r: seq<Element>)
    ensures forall e | e in r :: (e.ComponentElement? && e in moved) || (e.WireElement? && Listed(links, e.wire))
    ensures forall c | ComponentElement(c) in moved :: ComponentElement(c) in r
    ensures forall w | Listed(links, w) && (w in selected || exists s | s in selected :: Overlaps(s, w)) :: WireElement(w) in r
  {
    var peers := Peers(moved);
    var wires := Reselect(links, selected);
    var lifted := seq(|peers|, i requires 0 <= i < |peers| => ComponentElement(peers[i]));
    var r := lifted + WireElements(wires);
    forall c | c in peers
      ensures ComponentElement(c) in r
    {
      var i :| 0 <= i < |peers| && peers[i] == c;
      assert lifted[i] == ComponentElement(c);
    }
    assert forall w | w in wires :: WireElement(w) in r;
    r
  }

  /** What `finalizeMove` hands back: the board, and the new selection, no
      selection when nothing was dragged, or the failure it throws. */
  datatype Finalized = Finalized(board: Board, outcome: Result<Option<seq<Element>>>)

  /** The put-down itself: the routes' replaced wires removed, then the
      planned elements and the routes added, each element once: the two are
      joined as sets, so a dragged wire that is also a route is added once. */
  function PutDown(b: Board, plan: Plan, fuel: nat): (r: Option<Placing>)
    ensures r.Some? ==> r.value.board.moving == b.moving && r.value.board.rejoin == b.rejoin
    ensures r.Some? ==> forall w | w in r.value.selected :: !plan.rollback && WireElement(w) in plan.elements
    ensures r.Some? && r.value.fault.None? ==> forall c | ComponentElement(c) in plan.elements :: c in r.value.board.components
  {
    // Only wires are removed here, so `circuit.removeComponent` is never called.
    match Removal.RemoveElements(b, WireElements(plan.toRemove), true, map[], fuel)
    case None => None
    case Some(removed) =>
      var b2 := removed.board;
      var es := InsertAll(plan.elements, WireElements(plan.toAdd));
      var placed := PlaceAll(Placing(b2, [], None), es, plan.toAdd, plan.rollback);
      assert forall w | WireElement(w) in es && w !in plan.toAdd :: WireElement(w) in plan.elements;
      Some(placed)
  }

  /** `finalizeMove` given the drag computation's last result. With
      nothing dragged it does nothing. Otherwise a misplaced drag is rolled
      back; the wires the routes replace are removed; the elements and the
      routes are added; the drag ends. A rollback fails with "Cannot move
      components/wires here.", then the last failure of an addition is
      thrown; otherwise the new selection is the dragged components and the
      wires that are or overlap a placed dragged wire. `None` when the
      removal runs out of `fuel`. */
  function FinalizeMove(b: Board, result: Option<Routing.Computed>, fuel: nat): (r: Option<Finalized>)
    ensures b.moving.None? ==> r == Some(Finalized(b, Success(None)))
    ensures r.Some? ==> r.value.board.moving.None? && r.value.board.rejoin == b.rejoin
    ensures r.Some? && b.moving.Some? ==> r.value.board.delta == Point(0, 0)
    ensures r.Some? && Idle(b) ==> Idle(r.value.board)
    ensures r.Some? && b.moving.Some? && Misplaced(b, b.moving.value) ==>
      r.value.outcome == Failure(Simulation("Cannot move components/wires here."))
    ensures r.Some? && r.value.outcome.Success? && r.value.outcome.value.Some? ==>
      b.moving.Some? && !Misplaced(b, b.moving.value) &&
      forall e | e in r.value.outcome.value.value ::
        (e.ComponentElement? && e in b.moving.value && e.peer in r.value.board.components)
        || (e.WireElement? && Listed(r.value.board.links, e.wire))
  {
    if b.moving.None? then Some(Finalized(b, Success(None)))
    else
      var plan := PlanMove(b, result);
      var b1 := if plan.rollback then Carry(b, plan.elements) else b;
      match PutDown(b1, plan, fuel)
      case None => None
      case Some(placed) =>
        var done := placed.board.(moving := None, delta := Point(0, 0));
        if plan.rollback then Some(Finalized(done, Failure(Simulation("Cannot move components/wires here."))))
        else if placed.fault.Some? then Some(Finalized(done, Failure(placed.fault.value)))
        else Some(Finalized(done, Success(Some(Selection(plan.elements, placed.board.links, placed.selected)))))
  }

  /** `initMove(elements, remove)`: a drag under way is put down first, its
      failure ignored. The elements become the dragged ones; when they are
      lifted off the board, their ports and wire ends are collected for
      routing and they are removed from the board's nets (components stay
      on the list). Returns the board and the collected anchors; `None`
      when a removal runs out of `fuel`. */
  function InitMove(b: Board, elements: seq<Element>, remove: bool, pending: Option<Routing.Computed>, fuel: nat): (r: Option<(Board, seq<Connection>)>)
    ensures r.Some? ==> r.value.0.moving == Some(elements) && r.value.0.anchored == remove
    ensures r.Some? ==> (forall c :: c in r.value.1 <==> remove && c in Routing.ConnectedPorts(elements))
    ensures r.Some? && Idle(b) ==> r.value.0.delta == Point(0, 0)
    ensures r.Some? && b.moving.None? && !remove ==> r.value.0.components == b.components
  {
    var before := if b.moving.Some? then
        (match FinalizeMove(b, pending, fuel) case Some(f) => Some(f.board) case None => None)
      else Some(b);
    match before
    case None => None
    case Some(b0) =>
      var b1 := b0.(moving := Some(elements), anchored := remove);
      if !remove then Some((b1, []))
      else
        // Components stay in the circuit, so `circuit.removeComponent` is never called.
        match Removal.RemoveElements(b1, elements, false, map[], fuel)
        case None => None
        case Some(removed) => Some((removed.board, Routing.ConnectedPorts(elements)))
  }

  /** Once lifted from a board with no drag under way, the elements are
      where the drag begins: offset nothing from their starting places, the
      board's list showing them there. */
  lemma InitMoveStarts(b: Board, elements: seq<Element>, remove: bool, pending: Option<Routing.Computed>, fuel: nat)
    requires Idle(b) && b.moving.None? && InitMove(b, elements, remove, pending, fuel).Some?
    requires forall c | c in b.components :: Dragged(elements, c.id).None? || Dragged(elements, c.id) == Some(c)
    ensures var r := InitMove(b, elements, remove, pending, fuel).value.0;
      Offset(r, elements, r.components)
  {
    var r := InitMove(b, elements, remove, pending, fuel).value.0;
    ShiftAllZero(elements);
    assert forall d | d in r.components :: d in b.components;
    var f := Follow(r.components, elements);
    forall i | 0 <= i < |r.components|
      ensures f[i] == r.components[i]
    {
      assert r.components[i] in b.components;
    }
  }
}
