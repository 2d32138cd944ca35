/** `CircuitBoard.addWire` and the helpers it calls: `handleConnection`,
    which folds a connection's net into the net being built, and
    `wireAlreadyExists`. The request is walked point by point; it is cut
    where a port or a wire end already sits, each piece not already covered
    by a wire is added to one new net together with everything met on the
    way, wires met in their middle are split there, and the board is
    rejoined. */
module Wiring {
  import opened Wrappers
  import opened OrderedSets
  import opened GuiElements
  import opened Wires
  import opened Connections
  import opened Links
  import opened Boards
  import Splices
  import Rejoining

  /** Removing a net loses exactly what only that net held. */
  lemma RemoveAtPools(links: seq<LinkWires>, k: nat)
    requires k < |links|
    ensures forall q :: Seated(links, q) <==> Seated(RemoveAt(links, k), q) || q in Members(links[k])
    ensures forall v :: Listed(links, v) <==> Listed(RemoveAt(links, k), v) || v in links[k].wires
    ensures forall l | l in RemoveAt(links, k) :: l in links
  {
    var r := RemoveAt(links, k);
    forall q | Seated(links, q) && q !in Members(links[k])
      ensures Seated(r, q)
    {
      var j :| 0 <= j < |links| && q in Members(links[j]);
      if j < k {
        assert r[j] == links[j];
      } else {
        assert r[j - 1] == links[j];
      }
    }
    forall v | Listed(links, v) && v !in links[k].wires
      ensures Listed(r, v)
    {
      var j :| 0 <= j < |links| && v in links[j].wires;
      if j < k {
        assert r[j] == links[j];
      } else {
        assert r[j - 1] == links[j];
      }
    }
    forall l | l in r
      ensures l in links
    {
      var j :| 0 <= j < |r| && r[j] == l;
      assert l == if j < k then links[j] else links[j + 1];
    }
  }

  /** `handleConnection`: unless the net being built (`acc`) already holds
      the connection, the connection's net is taken off the list and merged
      into it. Nothing is lost: the list and `acc` together hold what they
      held before, plus the connection's own port or wire. */
  function HandleConnection(links: seq<LinkWires>, acc: LinkWires, c: Connection): (r: (seq<LinkWires>, LinkWires))
    ensures InNet(r.1, c)
    ensures forall q | q in Members(acc) :: q in Members(r.1)
    ensures forall v | v in acc.wires :: v in r.1.wires
    ensures forall q :: Seated(r.0, q) || q in Members(r.1) <==>
      Seated(links, q) || q in Members(acc) || c == PortConnection(q)
    ensures forall v :: Listed(r.0, v) || v in r.1.wires <==>
      Listed(links, v) || v in acc.wires || (c.WireConnection? && c.wire == v)
    ensures forall l | l in r.0 :: l in links
    ensures Coherent(acc) ==> Coherent(r.1)
  {
    if InNet(acc, c) then (links, acc)
    else match Owner(links, c)
      case Some(k) =>
        RemoveAtPools(links, k);
        (RemoveAt(links, k), Merge(acc, links[k]))
      case None => (links, Merge(acc, LoneNet(c)))
  }

  /** Some connection of `cs` is a connection of wire `v`. */
  predicate Brought(cs: seq<Connection>, v: Wire)
  {
    exists d | d in cs :: d.WireConnection? && d.wire == v
  }

  /** `handleConnection` for each connection in turn: afterwards the net
      being built holds every one of them, and the list and that net
      together hold what they held before plus the connections' ports and
      wires. */
  function Gather(links: seq<LinkWires>, acc: LinkWires, cs: seq<Connection>): (r: (seq<LinkWires>, LinkWires))
    ensures forall c | c in cs :: InNet(r.1, c)
    ensures forall q | q in Members(acc) :: q in Members(r.1)
    ensures forall v | v in acc.wires :: v in r.1.wires
    ensures forall q :: Seated(r.0, q) || q in Members(r.1) <==>
      Seated(links, q) || q in Members(acc) || PortConnection(q) in cs
    ensures forall v :: Listed(r.0, v) || v in r.1.wires <==>
      Listed(links, v) || v in acc.wires || Brought(cs, v)
    ensures forall l | l in r.0 :: l in links
    ensures Coherent(acc) ==> Coherent(r.1)
    decreases |cs|
  {
    if cs == [] then (links, acc)
    else
      var (l1, a1) := HandleConnection(links, acc, cs[0]);
      var r := Gather(l1, a1, cs[1..]);
      assert forall c | c in cs :: c == cs[0] || c in cs[1..];
      assert forall v :: Brought(cs, v) <==> (cs[0].WireConnection? && cs[0].wire == v) || Brought(cs[1..], v) by {
        forall v | Brought(cs, v)
          ensures (cs[0].WireConnection? && cs[0].wire == v) || Brought(cs[1..], v)
        {
          var d :| d in cs && d.WireConnection? && d.wire == v;
          if d != cs[0] {
            assert d in cs[1..];
          }
        }
      }
      r
  }

  /** `wireAlreadyExists`: the first wire connected at the wire's origin
      that the wire lies within, if any. */
  function WireAlreadyExists(m: Index, w: Wire): (r: Option<Wire>)
    ensures r.Some? ==> Wires.IsWithin(w, r.value)
    ensures r.Some? <==> exists c | c in GetConnections(m, w.x, w.y) :: c.WireConnection? && Wires.IsWithin(w, c.wire)
    ensures r.Some? ==> exists c | c in GetConnections(m, w.x, w.y) :: c.WireConnection? && c.wire == r.value
  {
    Within(GetConnections(m, w.x, w.y), w)
  }

  /** The wire of the first wire connection in `cs` that `w` lies within. */
  function Within(cs: seq<Connection>, w: Wire): (r: Option<Wire>)
    ensures r.Some? ==> Wires.IsWithin(w, r.value)
    ensures r.Some? <==> exists c | c in cs :: c.WireConnection? && Wires.IsWithin(w, c.wire)
    ensures r.Some? ==> exists c | c in cs :: c.WireConnection? && c.wire == r.value
  {
    if cs == [] then None
    else if cs[0].WireConnection? && Wires.IsWithin(w, cs[0].wire) then Some(cs[0].wire)
    else
      var r := Within(cs[1..], w);
      assert forall c | c in cs[1..] :: c in cs;
      assert forall c | c in cs :: c == cs[0] || c in cs[1..];
      r
  }

  /** The wire asked for: `length` steps from (x, y), backwards when
      negative. */
  datatype Request = Request(x: int, y: int, length: int, horizontal: bool)

  /** The checks `addWire` makes before touching the board. */
  predicate NegativeSpace(q: Request)
  {
    q.x < 0 || q.y < 0 || (q.horizontal && q.x + q.length < 0) || (!q.horizontal && q.y + q.length < 0)
  }

  predicate Rejected(q: Request)
  {
    NegativeSpace(q) || q.length == 0
  }

  /** The number of grid steps asked for. */
  function Span(q: Request): nat
  {
    if q.length < 0 then -q.length else q.length
  }

  /** The grid point `t` steps along the request from its origin. */
  function At(q: Request, t: int): Point
  {
    Along(Point(q.x, q.y), q.horizontal, if q.length < 0 then -t else t)
  }

  /** The loop visits `t` = 1 … `Span` and closes a piece at `t` when the
      first connection there is a port or a wire end, or at the last point. */
  predicate IsStop(m: Index, q: Request, t: nat)
  {
    t == Span(q) ||
    match FindConnection(m, At(q, t).x, At(q, t).y)
    case None => false
    case Some(c) => c.PortConnection? || IsWireEnd(c)
  }

  /** Whether the loop closes a piece at each point 0 … `Span` of the request. */
  function Marks(m: Index, q: Request): (r: seq<bool>)
    ensures |r| == Span(q) + 1
    ensures forall u | 0 <= u < |r| :: r[u] == IsStop(m, q, u)
  {
    seq(Span(q) + 1, u requires 0 <= u < Span(q) + 1 => IsStop(m, q, u))
  }

  /** The marked points from `t` on, in order. */
  function StopsIn(marks: seq<bool>, t: nat): (r: seq<nat>)
    requires 1 <= t && |marks| > 0 && marks[|marks| - 1]
    ensures forall i | 0 <= i < |r| :: t <= r[i] < |marks| && marks[r[i]]
    ensures forall i, j | 0 <= i < j < |r| :: r[i] < r[j]
    ensures t < |marks| ==> r != [] && r[|r| - 1] == |marks| - 1
    decreases |marks| - t
  {
    if t >= |marks| then []
    else if marks[t] then
      var rest := StopsIn(marks, t + 1);
      StopsInCons(marks, t, rest);
      [t] + rest
    else
      StopsIn(marks, t + 1)
  }

  /** A marked point in front of the marked points found after it. */
  lemma StopsInCons(marks: seq<bool>, t: nat, rest: seq<nat>)
    requires t < |marks| && marks[t]
    requires forall i | 0 <= i < |rest| :: t + 1 <= rest[i] < |marks| && marks[rest[i]]
    requires forall i, j | 0 <= i < j < |rest| :: rest[i] < rest[j]
    ensures forall i | 0 <= i < |[t] + rest| :: t <= ([t] + rest)[i] < |marks| && marks[([t] + rest)[i]]
    ensures forall i, j | 0 <= i < j < |[t] + rest| :: ([t] + rest)[i] < ([t] + rest)[j]
  {
    Prepend(t, rest);
    var r := [t] + rest;
    assert forall i | 1 <= i < |r| :: r[i] == rest[i - 1];
  }

  /** Every marked point from `t` on is found. */
  lemma {:induction false} StopsInHas(marks: seq<bool>, t: nat, u: nat)
    requires 1 <= t && |marks| > 0 && marks[|marks| - 1]
    requires t <= u < |marks| && marks[u]
    ensures u in StopsIn(marks, t)
    decreases u - t
  {
    if u == t {
      assert StopsIn(marks, t)[0] == t;
    } else {
      StopsInHas(marks, t + 1, u);
    }
  }

  /** The points from `t` on where the loop closes a piece, in order. */
  function Stops(m: Index, q: Request, t: nat): (r: seq<nat>)
    requires 1 <= t
    ensures forall i | 0 <= i < |r| :: t <= r[i] <= Span(q)
    ensures forall i, j | 0 <= i < j < |r| :: r[i] < r[j]
    ensures forall u :: u in r <==> t <= u <= Span(q) && IsStop(m, q, u)
    ensures t <= Span(q) ==> r != [] && r[|r| - 1] == Span(q)
  {
    var marks := Marks(m, q);
    assert marks[Span(q)];
    var r := StopsIn(marks, t);
    forall u | t <= u <= Span(q) && IsStop(m, q, u)
      ensures u in r
    {
      StopsInHas(marks, t, u);
    }
    r
  }

  /** A smaller number in front keeps an increasing sequence increasing. */
  lemma Prepend(t: nat, rest: seq<nat>)
    requires forall i | 0 <= i < |rest| :: t < rest[i]
    requires forall i, j | 0 <= i < j < |rest| :: rest[i] < rest[j]
    ensures var r := [t] + rest; forall i, j | 0 <= i < j < |r| :: r[i] < r[j]
    ensures forall u :: u in [t] + rest <==> u == t || u in rest
  {
    var r := [t] + rest;
    forall i, j | 0 <= i < j < |r|
      ensures r[i] < r[j]
    {
      assert r[j] == rest[j - 1];
      if i > 0 {
        assert r[i] == rest[i - 1];
      }
    }
  }

  /** The piece boundaries: the origin and then every stop. */
  function Cuts(m: Index, q: Request): (r: seq<nat>)
    requires !Rejected(q)
    ensures CutsOf(q, r)
    ensures forall u | 0 < u < Span(q) :: u in r <==> IsStop(m, q, u)
  {
    [0] + Stops(m, q, 1)
  }

  /** The request's row (horizontal) or column (vertical). */
  predicate OnLine(q: Request, p: Point)
  {
    if q.horizontal then p.y == q.y else p.x == q.x
  }

  /** Which unit step of the request starts at `p`, counted from the
      request's origin in the direction it is drawn. */
  function StepIndex(q: Request, p: Point): int
  {
    var d := if q.horizontal then p.x - q.x else p.y - q.y;
    if q.length < 0 then -d - 1 else d
  }

  /** The wire the loop builds between points `a` and `b` of the request,
      as the wire constructor normalises it: it covers the request's steps
      `a` to `b - 1` and nothing else. */
  function Piece(q: Request, a: nat, b: nat): (r: Wire)
    requires a < b
    ensures NewWire(At(q, a).x, At(q, a).y, if q.length < 0 then a - b else b - a, q.horizontal) == Success(r)
    ensures r.horizontal == q.horizontal
    ensures forall p :: HasStep(r, p) <==> OnLine(q, p) && a <= StepIndex(q, p) < b
  {
    if q.length < 0 then Wire(At(q, b).x, At(q, b).y, b - a, q.horizontal)
    else Wire(At(q, a).x, At(q, a).y, b - a, q.horizontal)
  }

  /** The wire asked for, when the request passes the checks. */
  function Asked(q: Request): (r: Wire)
    requires !Rejected(q)
    ensures NewWire(q.x, q.y, q.length, q.horizontal) == Success(r)
  {
    Piece(q, 0, Span(q))
  }

  /** The pieces between consecutive cuts. */
  function Pieces(q: Request, cuts: seq<nat>): (r: seq<Wire>)
    requires forall i, j | 0 <= i < j < |cuts| :: cuts[i] < cuts[j]
    ensures |r| == if cuts == [] then 0 else |cuts| - 1
    ensures forall i | 0 <= i < |r| :: r[i] == Piece(q, cuts[i], cuts[i + 1])
  {
    if |cuts| < 2 then []
    else
      assert forall i | 0 <= i < |cuts| - 1 :: cuts[i] < cuts[i + 1];
      var r := seq(|cuts| - 1, i requires 0 <= i < |cuts| - 1 => Piece(q, cuts[i], cuts[i + 1]));
      r
  }

  /** Strictly increasing cuts bracket every point between the first and
      the last. */
  lemma {:induction false} Bracket(cuts: seq<nat>, t: int) returns (i: nat)
    requires |cuts| >= 2 && forall i, j | 0 <= i < j < |cuts| :: cuts[i] < cuts[j]
    requires cuts[0] <= t < cuts[|cuts| - 1]
    ensures i < |cuts| - 1 && cuts[i] <= t < cuts[i + 1]
    decreases |cuts|
  {
    if t < cuts[1] {
      i := 0;
    } else {
      var j := Bracket(cuts[1..], t);
      i := j + 1;
    }
  }

  /** Increasing cuts from the origin to the far end of an accepted
      request. */
  predicate CutsOf(q: Request, cuts: seq<nat>)
  {
    && |cuts| >= 2 && cuts[0] == 0 && cuts[|cuts| - 1] == Span(q)
    && forall i, j | 0 <= i < j < |cuts| :: cuts[i] < cuts[j]
  }

  /** Every step of the wire asked for is a step of some piece. */
  lemma PiecesReach(q: Request, cuts: seq<nat>, p: Point)
    requires !Rejected(q) && CutsOf(q, cuts) && HasStep(Asked(q), p)
    ensures exists s | s in Pieces(q, cuts) :: HasStep(s, p)
  {
    var i := Bracket(cuts, StepIndex(q, p));
    assert HasStep(Pieces(q, cuts)[i], p);
  }

  /** Every step of a piece is a step of the wire asked for. */
  lemma PiecesInside(q: Request, cuts: seq<nat>, s: Wire, p: Point)
    requires !Rejected(q) && CutsOf(q, cuts) && s in Pieces(q, cuts) && HasStep(s, p)
    ensures HasStep(Asked(q), p)
  {
    var ps := Pieces(q, cuts);
    var i :| 0 <= i < |ps| && ps[i] == s;
    assert 0 <= cuts[i] && cuts[i + 1] <= Span(q);
  }

  /** Two different pieces share no step. */
  lemma PiecesApart(q: Request, cuts: seq<nat>)
    requires CutsOf(q, cuts)
    ensures var ps := Pieces(q, cuts);
      forall i, j, p | 0 <= i < j < |ps| && HasStep(ps[i], p) :: !HasStep(ps[j], p)
  {
    var ps := Pieces(q, cuts);
    forall i, j, p | 0 <= i < j < |ps| && HasStep(ps[i], p)
      ensures !HasStep(ps[j], p)
    {
      assert cuts[i + 1] <= cuts[j];
    }
  }

  /** The pieces between cuts cover exactly the steps of the wire asked
      for, and no two share a step. */
  lemma PiecesCover(q: Request, cuts: seq<nat>)
    requires !Rejected(q) && CutsOf(q, cuts)
    ensures forall p :: HasStep(Asked(q), p) <==> exists s | s in Pieces(q, cuts) :: HasStep(s, p)
    ensures var ps := Pieces(q, cuts);
      forall i, j, p | 0 <= i < j < |ps| && HasStep(ps[i], p) :: !HasStep(ps[j], p)
  {
    forall p
      ensures HasStep(Asked(q), p) <==> exists s | s in Pieces(q, cuts) :: HasStep(s, p)
    {
      if HasStep(Asked(q), p) {
        PiecesReach(q, cuts, p);
      }
      if exists s | s in Pieces(q, cuts) :: HasStep(s, p) {
        var s :| s in Pieces(q, cuts) && HasStep(s, p);
        PiecesInside(q, cuts, s, p);
      }
    }
    PiecesApart(q, cuts);
  }

  /** The pieces of an accepted request cover exactly the steps of the wire
      asked for, and no two of them share a step. */
  lemma PiecesCoverAsked(m: Index, q: Request)
    requires !Rejected(q)
    ensures forall p :: HasStep(Asked(q), p) <==> exists s | s in Pieces(q, Cuts(m, q)) :: HasStep(s, p)
    ensures var ps := Pieces(q, Cuts(m, q));
      forall i, j, p | 0 <= i < j < |ps| && HasStep(ps[i], p) :: !HasStep(ps[j], p)
  {
    PiecesCover(q, Cuts(m, q));
  }

  /** The connection is filed in some bucket of the index. */
  ghost predicate InIndex(m: Index, c: Connection)
  {
    exists p | p in m :: c in m[p]
  }

  /** Every wire connection filed in the index is one of its wire's own
      connections, as `addConnection` only ever files those. */
  ghost predicate WellFiled(m: Index)
  {
    forall p, c | p in m && c in m[p] && c.WireConnection? :: c in WireConnections(c.wire)
  }

  /** What the loop hands to `handleConnection` at stop `t`: every
      connection at the last point, the first connection elsewhere. */
  function Met(m: Index, q: Request, t: nat): (r: seq<Connection>)
    ensures forall c | c in r :: InIndex(m, c)
  {
    var p := At(q, t);
    if t == Span(q) then GetConnections(m, p.x, p.y)
    else match FindConnection(m, p.x, p.y)
      case None => []
      case Some(c) => [c]
  }

  /** What the loop hands to `handleConnection` at each of the stops. */
  function MetAll(m: Index, q: Request, stops: seq<nat>): (r: seq<Connection>)
    ensures forall c | c in r :: InIndex(m, c)
  {
    if stops == [] then [] else Met(m, q, stops[0]) + MetAll(m, q, stops[1..])
  }

  /** Every connection `addWire` hands to `handleConnection`, in order: all
      those at the origin, then those met at the stops. All of them come out
      of the index. */
  function Handled(m: Index, q: Request): (r: seq<Connection>)
    requires !Rejected(q)
    ensures forall c | c in r :: InIndex(m, c)
  {
    GetConnections(m, q.x, q.y) + MetAll(m, q, Cuts(m, q)[1..])
  }

  /** An entry of `toSplit`: the wire and the connection to cut it at. */
  datatype Cut = Cut(wire: Wire, at: Connection)

  /** No two entries are for the same wire. */
  predicate KeysDistinct(ts: seq<Cut>)
  {
    forall i, j | 0 <= i < j < |ts| :: ts[i].wire != ts[j].wire
  }

  /** `toSplit[w] = c`: the entry for `w` takes the new connection, in its
      old place if there was one, at the end otherwise. */
  function Put(ts: seq<Cut>, w: Wire, c: Connection): (r: seq<Cut>)
    ensures Cut(w, c) in r
    ensures forall d | d in r :: d in ts || d == Cut(w, c)
    ensures forall d | d in ts && d.wire != w :: d in r
    ensures KeysDistinct(ts) ==> KeysDistinct(r)
  {
    if ts == [] then [Cut(w, c)]
    else if ts[0].wire == w then [Cut(w, c)] + ts[1..]
    else
      var r := [ts[0]] + Put(ts[1..], w, c);
      assert forall d | d in ts :: d == ts[0] || d in ts[1..];
      r
  }

  /** The connection lies on its wire away from both ends. */
  predicate MidWire(c: Connection)
  {
    c.WireConnection? && !IsWireEnd(c)
  }

  /** The `toSplit` map built while handling the connections `cs`, after
      `ts`: an entry for each wire met away from its ends, holding the last
      such connection met. */
  function Splits(ts: seq<Cut>, cs: seq<Connection>): (r: seq<Cut>)
    ensures KeysDistinct(ts) ==> KeysDistinct(r)
    ensures forall d | d in r :: d in ts || (d.at in cs && MidWire(d.at) && d.at.wire == d.wire)
    ensures forall c | c in cs && MidWire(c) :: exists d | d in r :: d.wire == c.wire
    ensures forall d | d in ts :: exists e | e in r :: e.wire == d.wire
    decreases |cs|
  {
    if cs == [] then ts
    else
      var c := cs[0];
      var ts1 := if MidWire(c) then Put(ts, c.wire, c) else ts;
      var r := Splits(ts1, cs[1..]);
      SplitsStep(ts, cs, ts1, r);
      r
  }

  /** Handling the first connection, then the rest, handles them all. */
  lemma SplitsStep(ts: seq<Cut>, cs: seq<Connection>, ts1: seq<Cut>, r: seq<Cut>)
    requires cs != [] && ts1 == if MidWire(cs[0]) then Put(ts, cs[0].wire, cs[0]) else ts
    requires KeysDistinct(ts1) ==> KeysDistinct(r)
    requires forall d | d in r :: d in ts1 || (d.at in cs[1..] && MidWire(d.at) && d.at.wire == d.wire)
    requires forall c | c in cs[1..] && MidWire(c) :: exists d | d in r :: d.wire == c.wire
    requires forall d | d in ts1 :: exists e | e in r :: e.wire == d.wire
    ensures KeysDistinct(ts) ==> KeysDistinct(r)
    ensures forall d | d in r :: d in ts || (d.at in cs && MidWire(d.at) && d.at.wire == d.wire)
    ensures forall c | c in cs && MidWire(c) :: exists d | d in r :: d.wire == c.wire
    ensures forall d | d in ts :: exists e | e in r :: e.wire == d.wire
  {
    var c := cs[0];
    assert forall d | d in cs[1..] :: d in cs;
    assert forall d | d in cs :: d == c || d in cs[1..];
    forall x | x in cs && MidWire(x)
      ensures exists d | d in r :: d.wire == x.wire
    {
      if x == c {
        assert Cut(c.wire, c) in ts1;
      }
    }
    forall d | d in ts
      ensures exists e | e in r :: e.wire == d.wire
    {
      if MidWire(c) && d.wire == c.wire {
        assert Cut(c.wire, c) in ts1;
      } else {
        assert d in ts1;
      }
    }
  }

  /** The pieces `wireAlreadyExists` finds no wire around: the ones the
      loop keeps in `wiresAdded`. */
  function Fresh(m: Index, ps: seq<Wire>): (r: seq<Wire>)
    ensures forall s :: s in r <==> s in ps && WireAlreadyExists(m, s).None?
  {
    if ps == [] then []
    else
      var rest := Fresh(m, ps[1..]);
      assert forall s | s in ps :: s == ps[0] || s in ps[1..];
      if WireAlreadyExists(m, ps[0]).None? then [ps[0]] + rest else rest
  }

  /** The private `addWire(linkWires, wire)` for each wire in turn. */
  function PutAll(b: Board, k: nat, ws: seq<Wire>): (r: Board)
    requires k < |b.links|
    ensures Frame(b, r) && |r.links| == |b.links|
    ensures forall j | 0 <= j < |b.links| && j != k :: r.links[j] == b.links[j]
    ensures Members(r.links[k]) == Members(b.links[k])
    ensures forall v :: v in r.links[k].wires <==> v in b.links[k].wires || v in ws
    ensures IndexOk(b.index) ==> IndexOk(r.index)
    ensures forall p: Point, d :: Filed(r.index, p, d) <==>
      Filed(b.index, p, d) || (Position(d) == p && exists w | w in ws :: d in WireConnections(w))
    decreases |ws|
  {
    if ws == [] then b
    else
      var r := PutAll(PutWire(b, k, ws[0]), k, ws[1..]);
      assert forall w | w in ws :: w == ws[0] || w in ws[1..];
      r
  }

  /** Appending a net adds exactly its ports and wires to the list's. */
  lemma AppendPools(links: seq<LinkWires>, l: LinkWires)
    ensures forall u :: Seated(links + [l], u) <==> Seated(links, u) || u in Members(l)
    ensures forall v :: Listed(links + [l], v) <==> Listed(links, v) || v in l.wires
  {
    var r := links + [l];
    forall u | Seated(links, u)
      ensures Seated(r, u)
    {
      var j :| 0 <= j < |links| && u in Members(links[j]);
      assert r[j] == links[j];
    }
    forall v | Listed(links, v)
      ensures Listed(r, v)
    {
      var j :| 0 <= j < |links| && v in links[j].wires;
      assert r[j] == links[j];
    }
    assert r[|links|] == l;
  }

  /** Every port and wire some net held, some net still holds once the net
      `k` has grown. */
  lemma GrowPools(a: seq<LinkWires>, r: seq<LinkWires>, k: nat)
    requires |a| == |r| && k < |a|
    requires forall j | 0 <= j < |a| && j != k :: r[j] == a[j]
    requires Members(r[k]) == Members(a[k])
    requires forall v | v in a[k].wires :: v in r[k].wires
    ensures forall u | Seated(a, u) :: Seated(r, u)
    ensures forall v | Listed(a, v) :: Listed(r, v)
  {
    forall u | Seated(a, u)
      ensures Seated(r, u)
    {
      var j :| 0 <= j < |a| && u in Members(a[j]);
      assert u in Members(r[j]);
    }
    forall v | Listed(a, v)
      ensures Listed(r, v)
    {
      var j :| 0 <= j < |a| && v in a[j].wires;
      assert v in r[j].wires;
    }
  }

  /** The nets of the connections `hs` merged into one new net, listed
      last, which takes the wires `added`; no port or wire leaves the nets,
      and the index gains the new wires' connections. */
  function Install(b: Board, hs: seq<Connection>, added: seq<Wire>): (r: Board)
    ensures Frame(b, r)
    ensures (hs != [] || added != []) ==> (|r.links| > 0
      && (forall c | c in hs :: InNet(r.links[|r.links| - 1], c))
      && (forall s | s in added :: s in r.links[|r.links| - 1].wires))
    ensures forall u | Seated(b.links, u) :: Seated(r.links, u)
    ensures forall v | Listed(b.links, v) :: Listed(r.links, v)
    ensures forall p: Point, d :: Filed(r.index, p, d) <==> (Filed(b.index, p, d) ||
      (Position(d) == p && exists w | w in added :: d in WireConnections(w)))
  {
    var (links, acc) := Gather(b.links, Empty, hs);
    if hs == [] && added == [] then b
    else
      var b1 := b.(links := links + [acc]);
      AppendPools(links, acc);
      var r := PutAll(b1, |links|, added);
      GrowPools(b1.links, r.links, |links|);
      InNetGrows(acc, r.links[|links|]);
      assert |r.links| - 1 == |links|;
      r
  }

  /** The loop of `addWire` up to `for (wire in wiresAdded) addWire(...)`:
      everything met is merged into the new net with the fresh pieces. */
  function Join(b: Board, q: Request): (r: Board)
    requires !Rejected(q)
  {
    Install(b, Handled(b.index, q), Fresh(b.index, Pieces(q, Cuts(b.index, q))))
  }

  /** A net with the same ports and more wires holds every connection the
      smaller one held. */
  lemma InNetGrows(a: LinkWires, r: LinkWires)
    requires Members(r) == Members(a) && forall v | v in a.wires :: v in r.wires
    ensures forall c | InNet(a, c) :: InNet(r, c)
  {
  }

  /** A connection of a wire that is not one of its ends lies on the wire
      strictly between them. */
  lemma MidConnection(c: Connection)
    requires MidWire(c) && c in WireConnections(c.wire)
    ensures OnWire(c.wire, Position(c)) && Position(c) != Start(c.wire) && Position(c) != End(c.wire)
  {
    var w := c.wire;
    var cs := WireConnections(w);
    var i :| 0 <= i < |cs| && cs[i] == c;
    assert c.offset == Along(Point(0, 0), w.horizontal, i);
    PointsOnWire(w, Position(c));
    assert i != 0 && i != w.length;
  }

  /** The entry's connection is one of its wire's own, away from its ends. */
  predicate GoodCut(d: Cut)
  {
    MidWire(d.at) && d.at.wire == d.wire && d.at in WireConnections(d.wire)
  }

  lemma MidCut(d: Cut)
    ensures GoodCut(d) ==> OnWire(d.wire, Position(d.at)) && Position(d.at) != Start(d.wire) && Position(d.at) != End(d.wire)
  {
    if GoodCut(d) {
      MidConnection(d.at);
    }
  }

  /** `toSplit.forEach(this::splitWire)`. */
  function ApplySplits(b: Board, ts: seq<Cut>): (r: Result<Board>)
    ensures r.Success? ==> Frame(b, r.value)
    ensures (forall d | d in ts :: GoodCut(d)) ==> r.Success?
    decreases |ts|
  {
    if ts == [] then Success(b)
    else
      var d := ts[0];
      MidCut(d);
      var b1 :- SplitWireAt(b, d.wire, d.at);
      ApplySplits(b1, ts[1..])
  }

  /** `addWire(x, y, length, horizontal)`: the checks, then the loop, the
      splits of the wires met in their middle, and `rejoinWires`. */
  function AddWire(b: Board, q: Request): (r: Result<Board>)
    ensures NegativeSpace(q) ==> r == Failure(Simulation("Wire cannot go into negative space."))
    ensures !NegativeSpace(q) && q.length == 0 ==> r == Failure(Simulation("Length cannot be 0"))
    ensures r.Success? ==> Frame(b, r.value)
  {
    if NegativeSpace(q) then Failure(Simulation("Wire cannot go into negative space."))
    else if q.length == 0 then Failure(Simulation("Length cannot be 0"))
    else Settle(Join(b, q), Splits([], Handled(b.index, q)))
  }

  /** The splits applied to the joined board, then `rejoinWires`. */
  function Settle(j: Board, ts: seq<Cut>): (r: Result<Board>)
    ensures r.Success? ==> Frame(j, r.value)
    ensures ApplySplits(j, ts).Success? ==> r == Success(Rejoining.RejoinWires(ApplySplits(j, ts).value))
  {
    var split :- ApplySplits(j, ts);
    Success(Rejoining.RejoinWires(split))
  }

  /** Every entry of `toSplit` is a wire met away from its ends at one of
      its own connections, when the index files only wires' own
      connections. */
  lemma SplitsAreGood(m: Index, q: Request)
    requires !Rejected(q) && WellFiled(m)
    ensures forall d | d in Splits([], Handled(m, q)) :: GoodCut(d)
  {
    var hs := Handled(m, q);
    forall d | d in Splits([], hs)
      ensures GoodCut(d)
    {
      assert InIndex(m, d.at);
      var p :| p in m && d.at in m[p];
    }
  }

  /** `addWire` throws exactly on a request with a negative end or a zero
      length; every other request succeeds, the splits included. */
  lemma AddWireRejects(b: Board, q: Request)
    requires WellFiled(b.index)
    ensures AddWire(b, q).Failure? <==> Rejected(q)
  {
    if !Rejected(q) {
      SplitsAreGood(b.index, q);
    }
  }

  /** A board lists, draws and seats at least what another does. */
  ghost predicate Grows(a: Board, r: Board)
  {
    && (forall v | Listed(a.links, v) :: Listed(r.links, v))
    && (forall u | Seated(a.links, u) :: Seated(r.links, u))
  }

  /** Listing more wires draws more steps. */
  lemma GrowsDraws(a: Board, r: Board)
    requires Grows(a, r)
    ensures forall p, h | Rejoining.Drawn(a, p, h) :: Rejoining.Drawn(r, p, h)
  {
  }

  /** Nets with the same ports seat the same ports. */
  lemma SamePorts(a: seq<LinkWires>, r: seq<LinkWires>)
    requires |a| <= |r| && forall j | 0 <= j < |a| :: Members(r[j]) == Members(a[j])
    ensures forall u | Seated(a, u) :: Seated(r, u)
  {
    forall u | Seated(a, u)
      ensures Seated(r, u)
    {
      var j :| 0 <= j < |a| && u in Members(a[j]);
      assert u in Members(r[j]);
    }
  }

  /** Listing a connection's net loses nothing. */
  lemma EnlistGrows(b: Board, c: Connection)
    ensures Grows(b, Enlist(b, c).0)
  {
    if Owner(b.links, c).None? {
      AppendPools(b.links, LoneNet(c));
    }
  }

  /** Taking a wire off keeps every port and every other wire. */
  lemma TakeWireKeeps(b: Board, w: Wire)
    ensures forall v | Listed(b.links, v) && v != w :: Listed(TakeWire(b, w).links, v)
    ensures forall u | Seated(b.links, u) :: Seated(TakeWire(b, w).links, u)
  {
    var r := TakeWire(b, w);
    forall v | Listed(b.links, v) && v != w
      ensures Listed(r.links, v)
    {
      var j :| 0 <= j < |b.links| && v in b.links[j].wires;
      assert v in r.links[j].wires;
    }
    SamePorts(b.links, r.links);
  }

  /** Putting a wire into a net keeps everything and lists the wire. */
  lemma PutWireGrows(b: Board, k: nat, w: Wire)
    requires k < |b.links|
    ensures Grows(b, PutWire(b, k, w)) && Listed(PutWire(b, k, w).links, w)
  {
    var r := PutWire(b, k, w);
    GrowPools(b.links, r.links, k);
    assert w in r.links[k].wires;
  }

  /** `splitWire` at an inner point of the wire: every port stays in a net,
      every other wire stays listed, and the two halves are listed. */
  lemma SplitKeeps(b: Board, w: Wire, c: Connection)
    requires OnWire(w, Position(c)) && Position(c) != Start(w) && Position(c) != End(w)
    ensures SplitWireAt(b, w, c).Success?
    ensures var r := SplitWireAt(b, w, c).value; var halves := Splices.SplitWire(w, Position(c)).value;
      && Listed(r.links, halves.0) && Listed(r.links, halves.1)
      && (forall u | Seated(b.links, u) :: Seated(r.links, u))
      && (forall v | Listed(b.links, v) && v != w :: Listed(r.links, v))
  {
    var (b1, k) := Enlist(b, WireConnection(w, Point(0, 0)));
    EnlistGrows(b, WireConnection(w, Point(0, 0)));
    var b2 := TakeWire(b1, w);
    TakeWireKeeps(b1, w);
    var halves := Splices.SplitWire(w, Position(c)).value;
    var b3 := PutWire(b2, k, halves.0);
    PutWireGrows(b2, k, halves.0);
    var r := PutWire(b3, k, halves.1);
    PutWireGrows(b3, k, halves.1);
    assert SplitWireAt(b, w, c) == Success(r);
  }

  /** `splitWire` at an inner point of the wire draws every step the board
      drew: the halves draw the wire's. */
  lemma SplitDraws(b: Board, w: Wire, c: Connection)
    requires OnWire(w, Position(c)) && Position(c) != Start(w) && Position(c) != End(w)
    ensures SplitWireAt(b, w, c).Success?
    ensures forall u | Seated(b.links, u) :: Seated(SplitWireAt(b, w, c).value.links, u)
    ensures forall p, h | Rejoining.Drawn(b, p, h) :: Rejoining.Drawn(SplitWireAt(b, w, c).value, p, h)
  {
    SplitKeeps(b, w, c);
    var r := SplitWireAt(b, w, c).value;
    var halves := Splices.SplitWire(w, Position(c)).value;
    Splices.SplitWirePartition(w, Position(c));
    forall p, h | Rejoining.Drawn(b, p, h)
      ensures Rejoining.Drawn(r, p, h)
    {
      var v :| Listed(b.links, v) && v.horizontal == h && HasStep(v, p);
      if v == w {
        if HasStep(halves.0, p) {
          assert Listed(r.links, halves.0);
        } else {
          assert Listed(r.links, halves.1);
        }
      } else {
        assert Listed(r.links, v);
      }
    }
  }

  /** Splitting at good cuts always succeeds, keeps every port in a net
      and draws every step drawn before. */
  lemma {:induction false} SplitsDraw(b: Board, ts: seq<Cut>)
    requires forall d | d in ts :: GoodCut(d)
    ensures ApplySplits(b, ts).Success?
    ensures forall u | Seated(b.links, u) :: Seated(ApplySplits(b, ts).value.links, u)
    ensures forall p, h | Rejoining.Drawn(b, p, h) :: Rejoining.Drawn(ApplySplits(b, ts).value, p, h)
    decreases |ts|
  {
    if ts != [] {
      var d := ts[0];
      MidCut(d);
      SplitDraws(b, d.wire, d.at);
      var b1 := SplitWireAt(b, d.wire, d.at).value;
      assert forall e | e in ts[1..] :: e in ts;
      SplitsDraw(b1, ts[1..]);
    }
  }

  /** A sound index files only wires' own connections. */
  lemma SoundIsWellFiled(b: Board)
    requires Rejoining.IndexSound(b)
    ensures WellFiled(b.index)
  {
    forall p, c | p in b.index && c in b.index[p] && c.WireConnection?
      ensures c in WireConnections(c.wire)
    {
      assert Filed(b.index, p, c);
    }
  }

  /** A step of a wire is a step of any wire it lies within. */
  lemma WithinStep(s: Wire, u: Wire, p: Point)
    requires Wires.IsWithin(s, u) && HasStep(s, p)
    ensures HasStep(u, p) && u.horizontal == s.horizontal
  {
    IsWithinPoints(s, u);
  }

  /** A fresh piece ends up in the new net. */
  lemma FreshListed(b: Board, hs: seq<Connection>, added: seq<Wire>, s: Wire)
    requires s in added
    ensures Listed(Install(b, hs, added).links, s)
  {
    var r := Install(b, hs, added);
    assert s in r.links[|r.links| - 1].wires;
  }

  /** The wire `wireAlreadyExists` finds is filed, so listed on a board with
      a sound index, and stays listed. */
  lemma CoveredListed(b: Board, hs: seq<Connection>, added: seq<Wire>, s: Wire)
    requires Rejoining.IndexSound(b) && WireAlreadyExists(b.index, s).Some?
    ensures Listed(Install(b, hs, added).links, WireAlreadyExists(b.index, s).value)
  {
    var u := WireAlreadyExists(b.index, s).value;
    var c :| c in GetConnections(b.index, s.x, s.y) && c.WireConnection? && c.wire == u;
    assert Filed(b.index, Point(s.x, s.y), c);
    assert Listed(b.links, u);
  }

  /** After the loop every step of the wire asked for is drawn: by a fresh
      piece in the new net, or by the listed wire `wireAlreadyExists` found
      around a piece. */
  lemma AskedDrawn(b: Board, q: Request, p: Point)
    requires !Rejected(q) && Rejoining.IndexSound(b) && HasStep(Asked(q), p)
    ensures Rejoining.Drawn(Join(b, q), p, q.horizontal)
  {
    var s := PieceThrough(b.index, q, p);
    PieceDrawn(b, q, s, p);
  }

  /** Every step of the asked wire is a step of one of its pieces. */
  lemma PieceThrough(m: Index, q: Request, p: Point) returns (s: Wire)
    requires !Rejected(q) && HasStep(Asked(q), p)
    ensures s in Pieces(q, Cuts(m, q)) && HasStep(s, p) && s.horizontal == q.horizontal
  {
    var ps := Pieces(q, Cuts(m, q));
    PiecesCoverAsked(m, q);
    s :| s in ps && HasStep(s, p);
    var i :| 0 <= i < |ps| && ps[i] == s;
  }

  /** A piece of the asked wire through p: either it is added or the wire
      already there covers it, and either way p is drawn once joined. */
  lemma PieceDrawn(b: Board, q: Request, s: Wire, p: Point)
    requires !Rejected(q) && Rejoining.IndexSound(b)
    requires s in Pieces(q, Cuts(b.index, q)) && HasStep(s, p) && s.horizontal == q.horizontal
    ensures Rejoining.Drawn(Join(b, q), p, q.horizontal)
  {
    var m := b.index;
    var hs := Handled(m, q);
    var added := Fresh(m, Pieces(q, Cuts(m, q)));
    var j := Install(b, hs, added);
    assert j == Join(b, q);
    if WireAlreadyExists(m, s).None? {
      FreshListed(b, hs, added, s);
      assert Listed(j.links, s);
    } else {
      var u := WireAlreadyExists(m, s).value;
      CoveredListed(b, hs, added, s);
      WithinStep(s, u, p);
      assert Listed(j.links, u) && u.horizontal == q.horizontal && HasStep(u, p);
    }
  }

  /** Past its checks, `addWire` is the splits applied to the joined board,
      then rejoined. */
  lemma AddWireUnfolds(b: Board, q: Request)
    requires !Rejected(q) && ApplySplits(Join(b, q), Splits([], Handled(b.index, q))).Success?
    ensures AddWire(b, q) == Success(Rejoining.RejoinWires(ApplySplits(Join(b, q), Splits([], Handled(b.index, q))).value))
  {
    assert AddWire(b, q) == Settle(Join(b, q), Splits([], Handled(b.index, q)));
  }

  /** With rejoining off and a sound index, `addWire` succeeds with the
      splits applied to the joined board. */
  lemma AddWireSplits(b: Board, q: Request) returns (s: Board)
    requires !Rejected(q) && !b.rejoin && Rejoining.IndexSound(b)
    ensures AddWire(b, q) == Success(s)
    ensures forall u | Seated(Join(b, q).links, u) :: Seated(s.links, u)
    ensures forall p, h | Rejoining.Drawn(Join(b, q), p, h) :: Rejoining.Drawn(s, p, h)
  {
    var m := b.index;
    SoundIsWellFiled(b);
    SplitsAreGood(m, q);
    var j := Join(b, q);
    var ts := Splits([], Handled(m, q));
    SplitsDraw(j, ts);
    s := ApplySplits(j, ts).value;
    AddWireUnfolds(b, q);
    assert !s.rejoin;
  }

  /** `addWire` with rejoining off, on a board whose index is sound: it
      succeeds, draws every step of the wire asked for, still draws every
      step drawn before, and keeps every port in a net. */
  lemma AddWireDraws(b: Board, q: Request)
    requires !Rejected(q) && !b.rejoin && Rejoining.IndexSound(b)
    ensures AddWire(b, q).Success?
    ensures forall p | HasStep(Asked(q), p) :: Rejoining.Drawn(AddWire(b, q).value, p, q.horizontal)
    ensures forall p, h | Rejoining.Drawn(b, p, h) :: Rejoining.Drawn(AddWire(b, q).value, p, h)
    ensures forall u | Seated(b.links, u) :: Seated(AddWire(b, q).value.links, u)
  {
    var s := AddWireSplits(b, q);
    GrowsDraws(b, Join(b, q));
    forall p | HasStep(Asked(q), p)
      ensures Rejoining.Drawn(s, p, q.horizontal)
    {
      AskedDrawn(b, q, p);
    }
  }

  /** `splitWire`, wherever it cuts, keeps every port in a net. */
  lemma SplitSeated(b: Board, w: Wire, c: Connection)
    requires SplitWireAt(b, w, c).Success?
    ensures forall u | Seated(b.links, u) :: Seated(SplitWireAt(b, w, c).value.links, u)
  {
    var (b1, k) := Enlist(b, WireConnection(w, Point(0, 0)));
    EnlistGrows(b, WireConnection(w, Point(0, 0)));
    var b2 := TakeWire(b1, w);
    TakeWireKeeps(b1, w);
    var halves := Splices.SplitWire(w, Position(c)).value;
    var b3 := PutWire(b2, k, halves.0);
    PutWireGrows(b2, k, halves.0);
    PutWireGrows(b3, k, halves.1);
  }

  lemma {:induction false} SplitsSeated(b: Board, ts: seq<Cut>)
    requires ApplySplits(b, ts).Success?
    ensures forall u | Seated(b.links, u) :: Seated(ApplySplits(b, ts).value.links, u)
    decreases |ts|
  {
    if ts != [] {
      var d := ts[0];
      SplitSeated(b, d.wire, d.at);
      SplitsSeated(SplitWireAt(b, d.wire, d.at).value, ts[1..]);
    }
  }

  /** Whenever `addWire` succeeds, every port some net held is still held
      by some net. */
  lemma AddWireKeepsPorts(b: Board, q: Request)
    requires AddWire(b, q).Success?
    ensures forall u | Seated(b.links, u) :: Seated(AddWire(b, q).value.links, u)
  {
    var j := Join(b, q);
    var ts := Splits([], Handled(b.index, q));
    SplitsSeated(j, ts);
    var s := ApplySplits(j, ts).value;
    Rejoining.RejoinKeepsPorts(s);
    SamePorts(s.links, Rejoining.RejoinWires(s).links);
  }
}
