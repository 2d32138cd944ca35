/** The wire router (PathFinding.kt): a best-first search over grid points
    from a source to a destination, scoring each partial route by its
    length, its turns and the remaining Manhattan distance, and turning
    the route found into wires.

    The caller's `ValidWireLocation` callback, the thread's interrupt flag
    and the priority queue's order among nodes of equal score are
    parameters of a `Query`. */
module PathFinding {
  import opened Wrappers
  import opened GuiElements
  import opened Wires
  import opened OrderedSets

  /** `LocationPreference`. */
  datatype Preference = Invalid | Valid | Prefer

  /** `Direction`, in declaration order. */
  datatype Direction = Right | Left | Down | Up
  {
    function Opposite(): Direction
    {
      match this
      case Right => Left
      case Left => Right
      case Down => Up
      case Up => Down
    }

    predicate IsHorizontal()
    {
      this == Left || this == Right
    }

    function Move(p: Point): Point
    {
      match this
      case Right => Point(p.x + 1, p.y)
      case Left => Point(p.x - 1, p.y)
      case Down => Point(p.x, p.y + 1)
      case Up => Point(p.x, p.y - 1)
    }
  }

  /** `Direction.entries`. */
  const Directions: seq<Direction> := [Right, Left, Down, Up]

  /** The iteration cap: the search gives up when its 5000th poll comes. */
  const MAX_ITERATIONS: nat := 5000

  /** Turns weigh five grid steps. */
  const TURN_WEIGHT: int := 5

  /** `Cost`. */
  datatype Cost = Cost(length: int, turns: int, heuristic: int)

  /** `Cost.score`, by which nodes are polled. */
  function Score(c: Cost): int
  {
    c.turns * TURN_WEIGHT + c.length + c.heuristic
  }

  /** `Node`: a candidate point, how it was reached and at what cost. */
  datatype Node = Node(cost: Cost, point: Point, parent: Option<Point>, entered: Option<Direction>)

  /** `manhattanDistance`. */
  function Manhattan(a: Point, b: Point): (r: nat)
    ensures r == 0 <==> a == b
  {
    Abs(a.x - b.x) + Abs(a.y - b.y)
  }

  function Abs(n: int): nat { if n < 0 then -n else n }

  /** One call of `bestPath`: its points, the callback, the queue's choice
      among nodes of equal least score, and whether the thread is found
      interrupted at a given iteration. */
  datatype Query = Query(
    source: Point,
    dest: Point,
    callback: (int, int, bool) -> Preference,
    tie: seq<Node> -> nat,
    interrupted: nat -> bool)

  /** `p` is one grid step from `from`. */
  predicate UnitStep(from: Point, p: Point)
  {
    exists d: Direction :: d.Move(from) == p
  }

  /** A grid step changes exactly one coordinate, by one. */
  lemma UnitStepAxis(from: Point, p: Point)
    requires UnitStep(from, p)
    ensures (from.x == p.x) != (from.y == p.y)
    ensures Manhattan(from, p) == 1
  {
    var d: Direction :| d.Move(from) == p;
  }

  /** The router may step from `from` to `p`: one grid step, non-negative
      coordinates, and a callback that does not refuse the point for a
      wire in that orientation. */
  predicate Allowed(q: Query, from: Point, p: Point)
  {
    UnitStep(from, p) && p.x >= 0 && p.y >= 0 && q.callback(p.x, p.y, from.y == p.y) != Invalid
  }

  /** The nodes one step on from `current`: every direction except back the
      way it came, to a point with non-negative coordinates the callback
      does not refuse. A preferred point adds no length; a turn adds one,
      or two when the new point is not in line with the destination. */
  function Neighbors(q: Query, current: Node): (r: seq<Node>)
    ensures forall n | n in r :: n.parent == Some(current.point) && Allowed(q, current.point, n.point)
    ensures forall n | n in r ::
      (n.entered.Some? && Some(n.entered.value.Opposite()) != current.entered && n.point == n.entered.value.Move(current.point))
    ensures forall d: Direction | Some(d.Opposite()) != current.entered && Allowed(q, current.point, d.Move(current.point)) ::
      exists n | n in r :: n.entered == Some(d)
  {
    NeighborsFrom(q, current, Directions)
  }

  function NeighborsFrom(q: Query, current: Node, ds: seq<Direction>): (r: seq<Node>)
    ensures forall n | n in r :: n.parent == Some(current.point) && Allowed(q, current.point, n.point)
    ensures forall n | n in r ::
      (n.entered.Some? && n.entered.value in ds && Some(n.entered.value.Opposite()) != current.entered
      && n.point == n.entered.value.Move(current.point))
    ensures forall d | d in ds && Some(d.Opposite()) != current.entered && Allowed(q, current.point, d.Move(current.point)) ::
      exists n | n in r :: n.entered == Some(d)
  {
    if ds == [] then []
    else
      var d := ds[0];
      var rest := NeighborsFrom(q, current, ds[1..]);
      var p := d.Move(current.point);
      if Some(d.Opposite()) == current.entered || p.x < 0 || p.y < 0 then rest
      else
        var preference := q.callback(p.x, p.y, d.IsHorizontal());
        if preference == Invalid then rest
        else
          var length := if preference == Prefer then 0 else 1;
          var turns :=
            if current.entered.Some? && Some(d) != current.entered then
              (if p.x == q.dest.x || p.y == q.dest.y then 1 else 2)
            else 0;
          var cost := Cost(current.cost.length + length, current.cost.turns + turns, Manhattan(p, q.dest));
          [Node(cost, p, Some(current.point), Some(d))] + rest
  }

  /** The first node of least score. */
  function FirstMin(s: seq<Node>): (k: nat)
    requires s != []
    ensures k < |s| && forall j | 0 <= j < |s| :: Score(s[k].cost) <= Score(s[j].cost)
    ensures forall j | 0 <= j < k :: Score(s[j].cost) > Score(s[k].cost)
  {
    if |s| == 1 then 0
    else
      var k := FirstMin(s[1..]) + 1;
      if Score(s[0].cost) <= Score(s[k].cost) then 0 else k
  }

  /** `poll`: the node the queue hands out, one of least score; which one
      among equals is the query's choice. */
  function Poll(q: Query, frontier: seq<Node>): (k: nat)
    requires frontier != []
    ensures k < |frontier| && forall j | 0 <= j < |frontier| :: Score(frontier[k].cost) <= Score(frontier[j].cost)
  {
    var m := FirstMin(frontier);
    var t := q.tie(frontier);
    if t < |frontier| && Score(frontier[t].cost) == Score(frontier[m].cost) then t else m
  }

  /** An entry of `parents`: a visited point and the point it was reached from. */
  datatype Visit = Visit(point: Point, parent: Option<Point>)

  predicate Visited(log: seq<Visit>, p: Point)
  {
    exists i | 0 <= i < |log| :: log[i].point == p
  }

  /** Where a visited point was first recorded. */
  function IndexOf(log: seq<Visit>, p: Point): (i: nat)
    requires Visited(log, p)
    ensures i < |log| && log[i].point == p
    ensures forall j | 0 <= j < i :: log[j].point != p
  {
    if log[0].point == p then 0 else IndexOf(log[1..], p) + 1
  }

  /** What the search keeps true of `parents`: only the source has no
      parent, and every other point was reached by an allowed step from a
      point visited before it. */
  ghost predicate LogOk(q: Query, log: seq<Visit>)
  {
    forall i | 0 <= i < |log| ::
      && (log[i].parent.None? ==> log[i].point == q.source)
      && (log[i].parent.Some? ==> Visited(log[..i], log[i].parent.value) && Allowed(q, log[i].parent.value, log[i].point))
  }

  /** What the search keeps true of the queue: only the source has no
      parent, and every other node is an allowed step from a visited point. */
  ghost predicate FrontierOk(q: Query, log: seq<Visit>, frontier: seq<Node>)
  {
    forall n | n in frontier ::
      && (n.parent.None? ==> n.point == q.source)
      && (n.parent.Some? ==> Visited(log, n.parent.value) && Allowed(q, n.parent.value, n.point))
  }

  /** A route found by the router, from its first point back to the source:
      each point an allowed step from the next. */
  ghost predicate Route(q: Query, chain: seq<Point>)
  {
    && chain != [] && chain[|chain| - 1] == q.source
    && forall k | 0 <= k < |chain| - 1 :: Allowed(q, chain[k + 1], chain[k])
  }

  /** The points from a visited one back to the source, following parents. */
  function Chain(q: Query, log: seq<Visit>, i: nat): (r: seq<Point>)
    requires LogOk(q, log) && i < |log|
    ensures Route(q, r) && r[0] == log[i].point
    decreases i
  {
    match log[i].parent
    case None => [log[i].point]
    case Some(p) =>
      var j := IndexOf(log[..i], p);
      [log[i].point] + Chain(q, log, j)
  }

  /** A straight piece of the route: two different points in one row or
      one column. */
  predicate Straight(a: Point, b: Point)
  {
    a != b && (a.x == b.x || a.y == b.y)
  }

  /** Each point of the chain is one grid step from the next. */
  ghost predicate Steps(chain: seq<Point>)
  {
    forall j | 0 <= j < |chain| - 1 :: UnitStep(chain[j + 1], chain[j])
  }

  /** The loop of `constructPath`: walking the route from `chain[k]`, the
      current straight piece starting at `last`, a piece ends wherever the
      route bends; the last piece ends at the source unless it is empty. */
  function Pieces(chain: seq<Point>, k: nat, last: Point): (r: seq<(Point, Point)>)
    requires k < |chain| && Steps(chain)
    requires last.x == chain[k].x || last.y == chain[k].y
    ensures forall i | 0 <= i < |r| :: Straight(r[i].0, r[i].1) && r[i].1 in chain
    ensures r == [] ==> last == chain[|chain| - 1]
    ensures r != [] ==> r[0].0 == last && r[|r| - 1].1 == chain[|chain| - 1]
    ensures forall i | 0 <= i < |r| - 1 :: r[i].1 == r[i + 1].0
    decreases |chain| - k
  {
    var current := chain[k];
    if k == |chain| - 1 then
      if (current.x - last.x) + (current.y - last.y) != 0 then [(last, current)] else []
    else
      var next := chain[k + 1];
      PiecesStep(chain, k);
      if !(last.x == current.x && current.x == next.x) && !(last.y == current.y && current.y == next.y) then
        [(last, current)] + Pieces(chain, k + 1, current)
      else
        Pieces(chain, k + 1, last)
  }

  lemma PiecesStep(chain: seq<Point>, k: nat)
    requires k < |chain| - 1 && Steps(chain)
    ensures (chain[k].x == chain[k + 1].x) != (chain[k].y == chain[k + 1].y)
  {
    UnitStepAxis(chain[k + 1], chain[k]);
  }

  /** The wire `Wire(null, a.x, a.y, len, a.y == b.y)` of `constructPath`,
      from one end of a straight piece to the other. */
  function PieceWire(a: Point, b: Point): (w: Wire)
    requires Straight(a, b)
    ensures {Start(w), End(w)} == {a, b}
    ensures w.horizontal <==> a.y == b.y
  {
    var r := NewWire(a.x, a.y, (b.x - a.x) + (b.y - a.y), a.y == b.y);
    r.value
  }

  /** The wires of the pieces, gathered into a set as `totalPath` is. */
  function PieceWires(ps: seq<(Point, Point)>): (r: seq<Wire>)
    requires forall i | 0 <= i < |ps| :: Straight(ps[i].0, ps[i].1)
    ensures Distinct(r)
    ensures forall w :: w in r <==> exists i | 0 <= i < |ps| :: w == PieceWire(ps[i].0, ps[i].1)
  {
    if ps == [] then []
    else
      var rest := PieceWires(ps[..|ps| - 1]);
      var last := ps[|ps| - 1];
      var r := Insert(rest, PieceWire(last.0, last.1));
      assert forall w :: w in r <==> exists i | 0 <= i < |ps| :: w == PieceWire(ps[i].0, ps[i].1) by {
        forall w | w in rest
          ensures exists i | 0 <= i < |ps| :: w == PieceWire(ps[i].0, ps[i].1)
        {
          var i :| 0 <= i < |ps| - 1 && w == PieceWire(ps[..|ps| - 1][i].0, ps[..|ps| - 1][i].1);
          assert ps[..|ps| - 1][i] == ps[i];
        }
        forall i | 0 <= i < |ps| - 1
          ensures PieceWire(ps[i].0, ps[i].1) in rest
        {
          assert ps[..|ps| - 1][i] == ps[i];
        }
      }
      r
  }

  /** The pieces run end to end from `from` to `to`; no piece at all means
      the two are the same point. */
  predicate PolyLine(ps: seq<(Point, Point)>, from: Point, to: Point)
  {
    && (ps == [] ==> from == to)
    && (ps != [] ==> ps[0].0 == from && ps[|ps| - 1].1 == to)
    && forall i | 0 <= i < |ps| - 1 :: ps[i].1 == ps[i + 1].0
  }

  /** `ws` are the wires of straight pieces running end to end from `from`
      back to the source, turning only at points of a route the router
      may take. */
  ghost predicate Routed(q: Query, from: Point, ws: seq<Wire>)
  {
    exists chain: seq<Point>, ps: seq<(Point, Point)> ::
      && Route(q, chain) && chain[0] == from
      && (forall k | 0 <= k < |ps| :: Straight(ps[k].0, ps[k].1) && ps[k].0 in chain && ps[k].1 in chain)
      && PolyLine(ps, from, q.source)
      && ws == PieceWires(ps)
  }

  /** `constructPath` from the visited point `log[i]`. */
  function ConstructPath(q: Query, log: seq<Visit>, i: nat): (r: seq<Wire>)
    requires LogOk(q, log) && i < |log|
    ensures Routed(q, log[i].point, r)
  {
    var chain := Chain(q, log, i);
    var ps := Pieces(chain, 0, chain[0]);
    assert PolyLine(ps, log[i].point, q.source);
    assert forall k | 0 <= k < |ps| :: ps[k].0 in chain by {
      forall k | 0 <= k < |ps|
        ensures ps[k].0 in chain
      {
        if k > 0 {
          assert ps[k].0 == ps[k - 1].1;
        }
      }
    }
    PieceWires(ps)
  }

  /** The search loop of `bestPath`, after `iterations` polls: an empty
      queue means no route (`null`); an interrupt or the iteration cap gives
      up with no wires; a point already visited is skipped; the
      destination ends the search with its route; any other point is
      recorded and its neighbours queued. */
  function Search(q: Query, frontier: seq<Node>, log: seq<Visit>, iterations: nat): (r: Option<seq<Wire>>)
    requires iterations < MAX_ITERATIONS
    requires LogOk(q, log) && FrontierOk(q, log, frontier)
    ensures r.Some? ==> r.value == [] || Routed(q, q.dest, r.value)
    decreases MAX_ITERATIONS - iterations
  {
    if frontier == [] then None
    else if q.interrupted(iterations) then Some([])
    else if iterations + 1 == MAX_ITERATIONS then Some([])
    else
      var k := Poll(q, frontier);
      var current := frontier[k];
      var rest := frontier[..k] + frontier[k + 1..];
      assert FrontierOk(q, log, rest) by {
        assert forall n | n in rest :: n in frontier;
      }
      if Visited(log, current.point) then Search(q, rest, log, iterations + 1)
      else
        var log' := log + [Visit(current.point, current.parent)];
        SearchStep(q, log, current, rest);
        if current.point == q.dest then Some(ConstructPath(q, log', |log|))
        else Search(q, rest + Neighbors(q, current), log', iterations + 1)
  }

  lemma SearchStep(q: Query, log: seq<Visit>, current: Node, rest: seq<Node>)
    requires LogOk(q, log) && FrontierOk(q, log, rest + [current])
    ensures var log' := log + [Visit(current.point, current.parent)];
      LogOk(q, log') && FrontierOk(q, log', rest + Neighbors(q, current))
  {
    var log' := log + [Visit(current.point, current.parent)];
    assert log'[..|log|] == log;
    assert current in rest + [current];
    forall i | 0 <= i < |log|
      ensures log'[..i] == log[..i]
    {
    }
    assert Visited(log', current.point) by {
      assert log'[|log|].point == current.point;
    }
    forall p | Visited(log, p)
      ensures Visited(log', p)
    {
      var i :| 0 <= i < |log| && log[i].point == p;
      assert log'[i].point == p;
    }
    forall n | n in rest
      ensures n in rest + [current]
    {
    }
  }

  /** `bestPath`: a destination with a negative coordinate gives no wires
      at once; otherwise the search starts from the source with nothing
      visited. A route found is a chain of straight wires from the
      destination back to the source through points the router may take. */
  function BestPath(q: Query): (r: Option<seq<Wire>>)
    ensures q.dest.x < 0 || q.dest.y < 0 ==> r == Some([])
    ensures r.Some? ==> r.value == [] || Routed(q, q.dest, r.value)
  {
    if q.dest.x < 0 || q.dest.y < 0 then Some([])
    else Search(q, [Node(Cost(0, 0, 0), q.source, None, None)], [], 0)
  }

  /** Routing a point to itself gives no wires, unless the thread is
      interrupted before the first poll. */
  lemma BestPathSamePoint(q: Query)
    requires q.source == q.dest && q.dest.x >= 0 && q.dest.y >= 0 && !q.interrupted(0)
    ensures BestPath(q) == Some([])
  {
    var start := [Node(Cost(0, 0, 0), q.source, None, None)];
    var log := [Visit(q.source, None)];
    assert Poll(q, start) == 0;
    assert Chain(q, log, 0) == [q.source];
    assert Pieces([q.source], 0, q.source) == [];
  }
}
