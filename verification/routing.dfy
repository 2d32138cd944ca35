// The wire routing `moveElements` runs while elements are dragged with
// wires extended: which ports it routes, in which order, where each route
// starts, which cells the router may use, and what the computation hands
// to `finalizeMove`. The background thread is modelled as one pure
// computation over a snapshot of the board.

module Routing {
  import opened Wrappers
  import opened OrderedSets
  import opened GuiElements
  import opened Wires
  import opened Connections
  import opened Links
  import opened Boards
  import PathFinding

  /** `connections` of a dragged element. */
  function ElementConnections(e: Element): (r: seq<Connection>)
    ensures e.ComponentElement? ==> r == PeerConnections(e.peer)
    ensures e.WireElement? ==> r == WireConnections(e.wire)
  {
    match e
    case ComponentElement(c) => PeerConnections(c)
    case WireElement(w) => WireConnections(w)
  }

  /** A connection `initMove` keeps: a port, or the start or end of a wire. */
  predicate Anchor(c: Connection)
  {
    c.PortConnection? || IsWireEnd(c)
  }

  /** `connectedPorts` as `initMove` collects it: every port and every wire
      end of the lifted elements, each once. */
  function ConnectedPorts(es: seq<Element>): (r: seq<Connection>)
    ensures Distinct(r)
    ensures forall c :: c in r <==> Anchor(c) && exists e | e in es :: c in ElementConnections(e)
  {
    if es == [] then []
    else
      assert forall e | e in es :: e == es[0] || e in es[1..];
      InsertAll(ConnectedPorts(es[1..]), Split(ElementConnections(es[0]), Anchor).0)
  }

  /** A dragged wire contributes exactly its two ends, a dragged component
      all of its ports. */
  lemma ConnectedPortsOfOne(e: Element, c: Connection)
    ensures e.WireElement? ==> (c in ConnectedPorts([e]) <==>
      c == WireConnections(e.wire)[0] || c == WireConnections(e.wire)[e.wire.length])
    ensures e.ComponentElement? ==> (c in ConnectedPorts([e]) <==> c in PeerConnections(e.peer))
  {
    if e.WireElement? {
      var w := e.wire;
      WireConnectionsEnds(w);
      if c in ConnectedPorts([e]) {
        var i :| 0 <= i < |WireConnections(w)| && WireConnections(w)[i] == c;
        assert i == 0 || i == w.length;
      }
    }
  }

  // ---- the order of the anchors ----

  /** The comparator `moveElements` sorts the anchors with: by column,
      ascending when dragged right and descending otherwise, and within a
      column by row, ascending when dragged down and descending otherwise. */
  function Compare(p1: Point, p2: Point, dx: int, dy: int): int
  {
    if p1.x == p2.x then (if dy > 0 then p1.y - p2.y else p2.y - p1.y)
    else (if dx > 0 then p1.x - p2.x else p2.x - p1.x)
  }

  /** The point's rank in the drag direction: the order the comparator
      imposes is the lexicographic order of ranks. */
  function Rank(p: Point, dx: int, dy: int): (int, int)
  {
    (if dx > 0 then p.x else -p.x, if dy > 0 then p.y else -p.y)
  }

  predicate Before(a: (int, int), b: (int, int))
  {
    a.0 < b.0 || (a.0 == b.0 && a.1 < b.1)
  }

  /** The comparator is the lexicographic order of ranks, and it ties only
      equal points: a total order. */
  lemma CompareRanks(p1: Point, p2: Point, dx: int, dy: int)
    ensures Compare(p1, p2, dx, dy) < 0 <==> Before(Rank(p1, dx, dy), Rank(p2, dx, dy))
    ensures Compare(p1, p2, dx, dy) == 0 <==> p1 == p2
    ensures Compare(p1, p2, dx, dy) == -Compare(p2, p1, dx, dy)
  {
  }

  /** The anchors in the comparator's order. */
  predicate Ordered(cs: seq<Connection>, dx: int, dy: int)
  {
    forall i, j | 0 <= i < j < |cs| :: Compare(Position(cs[i]), Position(cs[j]), dx, dy) <= 0
  }

  /** `c` placed into a sorted list after every anchor that does not come
      after it, as a stable insertion does. */
  function InsertAnchor(c: Connection, cs: seq<Connection>, dx: int, dy: int): (r: seq<Connection>)
    requires Ordered(cs, dx, dy)
    ensures Ordered(r, dx, dy)
    ensures multiset(r) == multiset(cs) + multiset{c}
  {
    if cs == [] then [c]
    else if Compare(Position(c), Position(cs[0]), dx, dy) < 0 then
      BeforeAll(c, cs, dx, dy);
      ConsOrdered(c, cs, dx, dy);
      [c] + cs
    else
      TailOrdered(cs, dx, dy);
      var rest := InsertAnchor(c, cs[1..], dx, dy);
      InsertLater(c, cs, rest, dx, dy);
      [cs[0]] + rest
  }

  /** The comparator's order is transitive. */
  lemma CompareTrans(a: Point, b: Point, c: Point, dx: int, dy: int)
    requires Compare(a, b, dx, dy) <= 0 && Compare(b, c, dx, dy) <= 0
    ensures Compare(a, c, dx, dy) <= 0
  {
    CompareRanks(a, b, dx, dy);
    CompareRanks(b, c, dx, dy);
    CompareRanks(a, c, dx, dy);
  }

  /** What comes before the first of a sorted list comes before all of it. */
  lemma BeforeAll(c: Connection, cs: seq<Connection>, dx: int, dy: int)
    requires Ordered(cs, dx, dy) && |cs| > 0 && Compare(Position(c), Position(cs[0]), dx, dy) < 0
    ensures forall j | 0 <= j < |cs| :: Compare(Position(c), Position(cs[j]), dx, dy) <= 0
  {
    forall j | 0 <= j < |cs|
      ensures Compare(Position(c), Position(cs[j]), dx, dy) <= 0
    {
      if j > 0 {
        CompareTrans(Position(c), Position(cs[0]), Position(cs[j]), dx, dy);
      }
    }
  }

  /** The rest of a sorted list is sorted. */
  lemma TailOrdered(cs: seq<Connection>, dx: int, dy: int)
    requires Ordered(cs, dx, dy) && |cs| > 0
    ensures Ordered(cs[1..], dx, dy)
  {
    var t := cs[1..];
    forall i, j | 0 <= i < j < |t|
      ensures Compare(Position(t[i]), Position(t[j]), dx, dy) <= 0
    {
      assert t[i] == cs[i + 1] && t[j] == cs[j + 1];
    }
  }

  /** A sorted list with something in front that comes before all of it. */
  lemma ConsOrdered(c: Connection, cs: seq<Connection>, dx: int, dy: int)
    requires Ordered(cs, dx, dy)
    requires forall j | 0 <= j < |cs| :: Compare(Position(c), Position(cs[j]), dx, dy) <= 0
    ensures Ordered([c] + cs, dx, dy)
  {
    var r := [c] + cs;
    forall i, j | 0 <= i < j < |r|
      ensures Compare(Position(r[i]), Position(r[j]), dx, dy) <= 0
    {
      assert r[j] == cs[j - 1];
      if i > 0 {
        assert r[i] == cs[i - 1];
      }
    }
  }

  /** Inserting past the first anchor keeps it in front. */
  lemma InsertLater(c: Connection, cs: seq<Connection>, rest: seq<Connection>, dx: int, dy: int)
    requires |cs| > 0 && Ordered(cs, dx, dy) && Compare(Position(c), Position(cs[0]), dx, dy) >= 0
    requires Ordered(rest, dx, dy) && multiset(rest) == multiset(cs[1..]) + multiset{c}
    ensures Ordered([cs[0]] + rest, dx, dy)
    ensures multiset([cs[0]] + rest) == multiset(cs) + multiset{c}
  {
    assert cs == [cs[0]] + cs[1..];
    forall j | 0 <= j < |rest|
      ensures Compare(Position(cs[0]), Position(rest[j]), dx, dy) <= 0
    {
      var x := rest[j];
      assert x in multiset(rest);
      if x == c {
        CompareRanks(Position(c), Position(cs[0]), dx, dy);
      } else {
        assert x in multiset(cs[1..]);
        var k :| 0 <= k < |cs[1..]| && cs[1..][k] == x;
        assert cs[k + 1] == x;
      }
    }
    ConsOrdered(cs[0], rest, dx, dy);
  }

  /** `sortedWith`: the anchors in the comparator's order, none lost and
      none added. */
  function SortAnchors(cs: seq<Connection>, dx: int, dy: int): (r: seq<Connection>)
    ensures Ordered(r, dx, dy)
    ensures multiset(r) == multiset(cs)
  {
    if cs == [] then []
    else
      assert cs == [cs[0]] + cs[1..];
      InsertAnchor(cs[0], SortAnchors(cs[1..], dx, dy), dx, dy)
  }

  // ---- where a route starts ----

  /** The far end of every wire with an end at `p`: the ways on from `p`. */
  function Onward(ws: seq<Wire>, p: Point): (r: seq<Connection>)
    ensures forall c | c in r :: c.WireConnection? && c.wire in ws && IsWireEnd(c)
    ensures forall c | c in r :: Start(c.wire) == p || End(c.wire) == p
    ensures forall w | w in ws && (Start(w) == p || End(w) == p) :: exists c | c in r :: c.wire == w
  {
    if ws == [] then []
    else
      var w := ws[0];
      WireConnectionsEnds(w);
      var here := if Start(w) == p then [WireConnections(w)[w.length]]
        else if End(w) == p then [WireConnections(w)[0]]
        else [];
      here + Onward(ws[1..], p)
  }

  /** Some connection of the list is a port. */
  predicate HasPort(cs: seq<Connection>)
  {
    exists c | c in cs :: c.PortConnection?
  }

  /** The walk along a chain of wires from a dragged port's old place: at
      each point the one wire still unwalked with an end there is followed
      to its other end. The walk stops without an end where the way on is
      missing or branches, or at a dead end (fewer than two connections),
      where every wire counts as unwalked again; it stops with an end at a
      fork (more than two connections) or at a port. Returns the end found
      and the wires not walked. */
  function Walk(m: Index, all: seq<Wire>, wires: seq<Wire>, p: Point): (r: (Option<Connection>, seq<Wire>))
    ensures forall w | w in r.1 :: w in wires || w in all
    ensures r.0.Some? ==> r.0.value.WireConnection? && IsWireEnd(r.0.value) && r.0.value.wire in wires && r.0.value.wire !in r.1
    ensures r.0.Some? ==> var at := Position(r.0.value);
      |GetConnections(m, at.x, at.y)| > 2 || HasPort(GetConnections(m, at.x, at.y))
    decreases |wires|
  {
    if wires == [] then (None, wires)
    else
      var next := Onward(wires, p);
      if |next| != 1 then (None, wires)
      else
        var c := next[0];
        var rest := Delete(wires, c.wire);
        var at := Position(c);
        var cs := GetConnections(m, at.x, at.y);
        if |cs| < 2 then (None, InsertAll(rest, all))
        else if |cs| > 2 || HasPort(cs) then (Some(c), rest)
        else Walk(m, all, rest, at)
  }

  /** The net `connection.linkWires` that the loop over the connections at
      the source settles on: that of the last port or wire end there. */
  function LastNet(links: seq<LinkWires>, cs: seq<Connection>): (r: Option<LinkWires>)
    ensures r.None? <==> forall c | c in cs :: !Anchor(c)
    ensures r.Some? ==> exists c | c in cs :: Anchor(c) && r.value == NetOf(links, c)
  {
    if cs == [] then None
    else
      var c := cs[|cs| - 1];
      assert forall d | d in cs :: d == c || d in cs[..|cs| - 1];
      if Anchor(c) then Some(NetOf(links, c)) else LastNet(links, cs[..|cs| - 1])
  }

  /** The wires of `all` that are not in `left`. */
  function Minus(all: seq<Wire>, left: seq<Wire>): (r: seq<Wire>)
    ensures forall w :: w in r <==> w in all && w !in left
  {
    Split(all, w => w !in left).0
  }

  /** `w` is a wire of the net of a port or wire end at `src`. */
  ghost predicate Fed(b: Board, src: Point, w: Wire)
  {
    exists c | c in GetConnections(b.index, src.x, src.y) :: Anchor(c) && w in NetOf(b.links, c).wires
  }

  /** Where the route for a dragged port starts, and the wires it uses up.
      Nothing is routed when no connection is left at the port's old place.
      When wires, and no port, meet there, the chain of wires is walked and
      the route starts where the walk ends; the walked wires are consumed
      (they are replaced by the route). */
  function Source(b: Board, src: Point): (r: Option<(Point, seq<Wire>)>)
    ensures r.None? <==> GetConnections(b.index, src.x, src.y) == []
    ensures r.Some? && HasPort(GetConnections(b.index, src.x, src.y)) ==> r.value == (src, [])
    ensures r.Some? ==> forall w | w in r.value.1 :: Fed(b, src, w)
    ensures r.Some? && r.value.0 != src ==> exists c | c in GetConnections(b.index, src.x, src.y) :: IsWireEnd(c)
  {
    var here := GetConnections(b.index, src.x, src.y);
    if here == [] then None
    else match LastNet(b.links, here)
      case None => Some((src, []))
      case Some(l) =>
        if HasPort(here) then Some((src, []))
        else
          var walked := Walk(b.index, l.wires, l.wires, src);
          var start := if walked.0.Some? then Position(walked.0.value) else src;
          Some((start, Minus(l.wires, walked.1)))
  }

  // ---- the cells a route may use ----

  /** What the drag computation knows while routing one port: the board
      with the dragged elements, the dragged anchors where they are now,
      the routes already found and the wires consumed. */
  datatype Snapshot = Snapshot(board: Board, anchors: seq<Connection>, paths: seq<Wire>, consumed: seq<Wire>)

  /** The connections of every wire in the list. */
  function PathConnections(ws: seq<Wire>): (r: seq<Connection>)
    ensures forall c :: c in r <==> exists w | w in ws :: c in WireConnections(w)
  {
    if ws == [] then []
    else
      assert forall w | w in ws :: w == ws[0] || w in ws[1..];
      WireConnections(ws[0]) + PathConnections(ws[1..])
  }

  /** The connections the callback looks at for a cell: the anchors and the
      connections of the routes found that are at the cell, and the board's
      connections there. */
  function CellConnections(s: Snapshot, p: Point): (r: seq<Connection>)
    ensures forall c :: c in r <==>
      (IsAt(c, p.x, p.y) && (c in s.anchors || exists w | w in s.paths :: c in WireConnections(w)))
      || c in GetConnections(s.board.index, p.x, p.y)
  {
    Split(s.anchors + PathConnections(s.paths), c => IsAt(c, p.x, p.y)).0 + GetConnections(s.board.index, p.x, p.y)
  }

  /** A connection at a cell rules the cell out for a wire of the given
      orientation: a port, or an unconsumed wire that would be overlapped
      (same orientation, covering the cell) or joined at one of its ends. */
  predicate Blocks(s: Snapshot, c: Connection, p: Point, horizontal: bool)
  {
    || c.PortConnection?
    || (c.WireConnection? && c.wire !in s.consumed &&
        ((c.wire.horizontal == horizontal && ContainsPoint(Bounds(c.wire), p.x, p.y))
         || Start(c.wire) == p || End(c.wire) == p))
  }

  function AnyBlocks(s: Snapshot, cs: seq<Connection>, p: Point, horizontal: bool): (b: bool)
    ensures b <==> exists c | c in cs :: Blocks(s, c, p, horizontal)
  {
    if cs == [] then false
    else
      assert forall c | c in cs :: c == cs[0] || c in cs[1..];
      Blocks(s, cs[0], p, horizontal) || AnyBlocks(s, cs[1..], p, horizontal)
  }

  function AnyContains(ds: seq<Peer>, p: Point): (b: bool)
    ensures b <==> exists d | d in ds :: PeerContains(d, p.x, p.y)
  {
    if ds == [] then false
    else
      assert forall d | d in ds :: d == ds[0] || d in ds[1..];
      PeerContains(ds[0], p.x, p.y) || AnyContains(ds[1..], p)
  }

  /** The router's callback for a route from `src` to `dest`. The two ends
      are always usable. Any other cell is refused when a connection there
      blocks it or a placed or dragged component covers it, and is usable
      otherwise; no cell is ever preferred. */
  function RouteCell(s: Snapshot, src: Point, dest: Point, px: int, py: int, horizontal: bool): (r: PathFinding.Preference)
    ensures r != PathFinding.Prefer
    ensures Point(px, py) == dest || Point(px, py) == src ==> r == PathFinding.Valid
    ensures Point(px, py) != dest && Point(px, py) != src ==> (r == PathFinding.Invalid <==>
      (exists c | c in CellConnections(s, Point(px, py)) :: Blocks(s, c, Point(px, py), horizontal))
      || exists d | d in s.board.components || d in MovingPeers(s.board) :: PeerContains(d, px, py))
  {
    var p := Point(px, py);
    if p == dest || p == src then PathFinding.Valid
    else if AnyBlocks(s, CellConnections(s, p), p, horizontal) then PathFinding.Invalid
    else if AnyContains(s.board.components + MovingPeers(s.board), p) then PathFinding.Invalid
    else PathFinding.Valid
  }

  /** The router's query for one dragged port, with the search's tie
      breaking and interruption as given. */
  function CellQuery(s: Snapshot, src: Point, dest: Point, tie: seq<PathFinding.Node> -> nat, interrupted: nat -> bool): (q: PathFinding.Query)
    ensures q.source == src && q.dest == dest
  {
    PathFinding.Query(src, dest, (px, py, h) => RouteCell(s, src, dest, px, py, h), tie, interrupted)
  }

  /** Every point of a route the router takes for a dragged port, other
      than its two ends, lies outside every placed and dragged component
      and holds no port. */
  lemma RouteAvoids(s: Snapshot, src: Point, dest: Point, tie: seq<PathFinding.Node> -> nat, interrupted: nat -> bool,
                    chain: seq<Point>, k: nat)
    requires PathFinding.Route(CellQuery(s, src, dest, tie, interrupted), chain)
    requires k < |chain| - 1 && chain[k] != src && chain[k] != dest
    ensures forall d | d in s.board.components || d in MovingPeers(s.board) :: !PeerContains(d, chain[k].x, chain[k].y)
    ensures forall c | c in GetConnections(s.board.index, chain[k].x, chain[k].y) :: !c.PortConnection?
  {
    var q := CellQuery(s, src, dest, tie, interrupted);
    assert PathFinding.Allowed(q, chain[k + 1], chain[k]);
    var h := chain[k + 1].y == chain[k].y;
    assert RouteCell(s, src, dest, chain[k].x, chain[k].y, h) != PathFinding.Invalid;
    forall c | c in GetConnections(s.board.index, chain[k].x, chain[k].y)
      ensures !c.PortConnection?
    {
      assert c in CellConnections(s, chain[k]);
    }
  }

  // ---- the whole computation ----

  /** `MoveComputeResult`: the routes to add, the wires they replace and
      the anchors no route was found for. */
  datatype Computed = Computed(toAdd: seq<Wire>, toRemove: seq<Wire>, failed: seq<Connection>)

  /** The place an anchor now at `t` was dragged from. */
  function Back(t: Connection, dx: int, dy: int): Point
  {
    Point(Position(t).x - dx, Position(t).y - dy)
  }

  /** One anchor not yet handled: the walk from its old place gives the
      route's start and the wires consumed; a non-empty route is kept, and
      the anchor fails otherwise. */
  function RouteOne(b: Board, anchors: seq<Connection>, t: Connection, start: (Point, seq<Wire>), acc: Computed,
                    tie: seq<PathFinding.Node> -> nat, interrupted: nat -> bool): (r: Computed)
    ensures forall w :: w in r.toRemove <==> w in acc.toRemove || w in start.1
    ensures forall w | w in acc.toAdd :: w in r.toAdd
    ensures r.failed == acc.failed || r.failed == acc.failed + [t]
  {
    var consumed := InsertAll(acc.toRemove, start.1);
    var s := Snapshot(b, anchors, acc.toAdd, consumed);
    var path := PathFinding.BestPath(CellQuery(s, start.0, Position(t), tie, interrupted));
    if path.Some? && path.value != [] then
      var added := InsertAll(acc.toAdd, path.value);
      assert path.value[0] in added;
      acc.(toAdd := added, toRemove := consumed)
    else acc.(toRemove := consumed, failed := acc.failed + [t])
  }

  /** The dragged anchors routed in turn: each anchor is where it is now,
      its old place is (dx, dy) back. An anchor at a point already handled
      is skipped, and so is one whose old place has no connection left. */
  function RouteFrom(b: Board, anchors: seq<Connection>, todo: seq<Connection>, dx: int, dy: int,
                     seen: set<Point>, acc: Computed,
                     tie: seq<PathFinding.Node> -> nat, interrupted: nat -> bool): (r: Computed)
    ensures forall c | c in r.failed :: c in acc.failed || c in todo
    ensures forall w | w in acc.toAdd :: w in r.toAdd
    ensures forall w | w in acc.toRemove :: w in r.toRemove
    ensures forall w | w in r.toRemove :: w in acc.toRemove || exists t | t in todo :: Fed(b, Back(t, dx, dy), w)
    decreases |todo|
  {
    if todo == [] then acc
    else
      var t := todo[0];
      assert forall x | x in todo[1..] :: x in todo;
      if Position(t) in seen then RouteFrom(b, anchors, todo[1..], dx, dy, seen, acc, tie, interrupted)
      else
        match Source(b, Back(t, dx, dy))
        case None => RouteFrom(b, anchors, todo[1..], dx, dy, seen + {Position(t)}, acc, tie, interrupted)
        case Some(start) =>
          var acc1 := RouteOne(b, anchors, t, start, acc, tie, interrupted);
          RouteFrom(b, anchors, todo[1..], dx, dy, seen + {Position(t)}, acc1, tie, interrupted)
  }

  /** The anchors collected by `initMove`, where they are after a drag by
      (dx, dy). */
  function MovedAll(ports: seq<Connection>, dx: int, dy: int): (r: seq<Connection>)
    ensures |r| == |ports| && forall i | 0 <= i < |ports| :: r[i] == Moved(ports[i], dx, dy)
  {
    seq(|ports|, i requires 0 <= i < |ports| => Moved(ports[i], dx, dy))
  }

  /** Sorting keeps exactly the anchors it was given. */
  lemma SortedMember(cs: seq<Connection>, dx: int, dy: int, x: Connection)
    ensures x in SortAnchors(cs, dx, dy) <==> x in cs
  {
    assert x in SortAnchors(cs, dx, dy) <==> x in multiset(SortAnchors(cs, dx, dy));
    assert x in cs <==> x in multiset(cs);
  }

  /** An anchor now at `t` came from a collected one whose place was `Back(t)`. */
  lemma MovedBack(ports: seq<Connection>, dx: int, dy: int, t: Connection) returns (p: Connection)
    requires t in MovedAll(ports, dx, dy)
    ensures p in ports && t == Moved(p, dx, dy) && Position(p) == Back(t, dx, dy)
  {
    var i :| 0 <= i < |ports| && MovedAll(ports, dx, dy)[i] == t;
    p := ports[i];
    MovedShifts(p, dx, dy, 0, 0);
  }

  /** The drag computation for the anchors collected by `initMove` (given
      where they were then) after a drag by (dx, dy): they are moved, put
      in the comparator's order, and routed in that order. */
  function ComputeMove(b: Board, ports: seq<Connection>, dx: int, dy: int,
                       tie: seq<PathFinding.Node> -> nat, interrupted: nat -> bool): (r: Computed)
    ensures forall c | c in r.failed :: exists p | p in ports :: c == Moved(p, dx, dy)
    ensures forall w | w in r.toRemove :: exists p | p in ports :: Fed(b, Position(p), w)
  {
    var anchors := SortAnchors(MovedAll(ports, dx, dy), dx, dy);
    var r := RouteFrom(b, anchors, anchors, dx, dy, {}, Computed([], [], []), tie, interrupted);
    forall c | c in r.failed
      ensures exists p | p in ports :: c == Moved(p, dx, dy)
    {
      SortedMember(MovedAll(ports, dx, dy), dx, dy, c);
      var p := MovedBack(ports, dx, dy, c);
    }
    forall w | w in r.toRemove
      ensures exists p | p in ports :: Fed(b, Position(p), w)
    {
      var t :| t in anchors && Fed(b, Back(t, dx, dy), w);
      SortedMember(MovedAll(ports, dx, dy), dx, dy, t);
      var p := MovedBack(ports, dx, dy, t);
    }
    r
  }
}
