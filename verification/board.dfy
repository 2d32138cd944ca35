/** The editing surface of one circuit (CircuitBoard.kt): the components
    placed on it, the nets of wires joining their ports, the index of every
    connection by grid point, and the state of a drag in progress.

    The source keeps components and nets as mutable objects and every
    connection knows its net. Here the board is a value: a component is
    known by its id, a net by its place in `links`, and the net of a
    connection is found by looking it up (`Owner`). A connection that no
    listed net holds belongs to a net of its own that the board does not
    list, as a fresh port or wire does in the source. Hash-set iteration
    order is the order of the sequences. */
module Boards {
  import opened Wrappers
  import opened OrderedSets
  import opened GuiElements
  import opened Wires
  import opened Connections
  import opened Links
  import Splices

  /** One port of a component's peer: its index on the component, its
      label, its offset from the peer's origin and its width. */
  datatype PortSpec = PortSpec(port: nat, name: string, offset: Point, bitSize: nat)

  /** A component as placed on the board (`ComponentPeer`): its identity,
      its origin, its size in grid cells and its ports. */
  datatype Peer = Peer(id: nat, x: int, y: int, width: nat, height: nat, ports: seq<PortSpec>)

  /** The peer's port connections, each at the peer's origin plus the
      port's offset. */
  function PortConns(c: Peer): (r: seq<PortConn>)
    ensures |r| == |c.ports|
    ensures forall i | 0 <= i < |r| ::
      && r[i].component == c.id && r[i].port == c.ports[i].port && r[i].bitSize == c.ports[i].bitSize
      && PortPosition(r[i]) == Point(c.x + c.ports[i].offset.x, c.y + c.ports[i].offset.y)
  {
    seq(|c.ports|, i requires 0 <= i < |c.ports| =>
      PortConn(c.id, c.ports[i].port, c.ports[i].name, Point(c.x, c.y), c.ports[i].offset, c.ports[i].bitSize))
  }

  /** `connections` of a peer. */
  function PeerConnections(c: Peer): (r: seq<Connection>)
    ensures |r| == |c.ports|
    ensures forall i | 0 <= i < |r| :: r[i] == PortConnection(PortConns(c)[i])
  {
    seq(|c.ports|, i requires 0 <= i < |c.ports| => PortConnection(PortConns(c)[i]))
  }

  /** `contains(x, y)` of a peer: the cell lies in its box, edges included. */
  predicate PeerContains(c: Peer, px: int, py: int)
  {
    ContainsPoint(Rect(c.x, c.y, c.width, c.height), px, py)
  }

  /** What can be selected and dragged: a component or a wire. */
  datatype Element = ComponentElement(peer: Peer) | WireElement(wire: Wire)

  /** The element moved by (dx, dy). */
  function Shift(e: Element, dx: int, dy: int): (r: Element)
    ensures r.ComponentElement? == e.ComponentElement?
  {
    match e
    case ComponentElement(c) => ComponentElement(c.(x := c.x + dx, y := c.y + dy))
    case WireElement(w) => WireElement(w.(x := w.x + dx, y := w.y + dy))
  }

  /** Every element moved by (dx, dy). */
  function ShiftAll(es: seq<Element>, dx: int, dy: int): (r: seq<Element>)
    ensures |r| == |es| && forall i | 0 <= i < |es| :: r[i] == Shift(es[i], dx, dy)
  {
    seq(|es|, i requires 0 <= i < |es| => Shift(es[i], dx, dy))
  }

  /** The board: placed components, listed nets, the connection index, the
      elements being dragged (`moveElements`) and whether they were lifted
      off the board (`addMoveAction`), the drag offset (`moveDeltaX`,
      `moveDeltaY`) and `rejoinWiresEnabled`. */
  datatype Board = Board(
    components: seq<Peer>,
    links: seq<LinkWires>,
    index: Index,
    moving: Option<seq<Element>>,
    anchored: bool,
    delta: Point,
    rejoin: bool)

  /** A board with nothing on it. */
  const Blank: Board := Board([], [], map[], None, false, Point(0, 0), true)

  /** The two boards agree on everything but nets and index. */
  predicate Frame(a: Board, b: Board)
  {
    a.components == b.components && a.moving == b.moving && a.anchored == b.anchored
    && a.delta == b.delta && a.rejoin == b.rejoin
  }

  /** The components among some elements. */
  function Peers(es: seq<Element>): (r: seq<Peer>)
    ensures forall c :: c in r <==> ComponentElement(c) in es
  {
    if es == [] then []
    else
      var rest := Peers(es[1..]);
      assert forall e | e in es[1..] :: e in es;
      if es[0].ComponentElement? then [es[0].peer] + rest else rest
  }

  /** The components being dragged. */
  function MovingPeers(b: Board): (r: seq<Peer>)
    ensures forall c :: c in r <==> b.moving.Some? && ComponentElement(c) in b.moving.value
  {
    if b.moving.None? then [] else Peers(b.moving.value)
  }

  /** No peer of the list other than `c` itself has `c`'s origin. */
  function Free(ds: seq<Peer>, c: Peer): (ok: bool)
    ensures ok <==> forall d | d in ds :: d.id == c.id || d.x != c.x || d.y != c.y
  {
    if ds == [] then true
    else
      assert forall d | d in ds[1..] :: d in ds;
      (ds[0].id == c.id || ds[0].x != c.x || ds[0].y != c.y) && Free(ds[1..], c)
  }

  /** `isValidLocation`: a non-negative origin that no other placed or
      dragged component has. */
  function IsValidLocation(b: Board, c: Peer): (ok: bool)
    ensures ok <==> (c.x >= 0 && c.y >= 0
      && forall d | d in b.components || d in MovingPeers(b) :: d.id == c.id || d.x != c.x || d.y != c.y)
  {
    c.x >= 0 && c.y >= 0 && Free(b.components + MovingPeers(b), c)
  }

  /** Some peer on the list is the component `id`. */
  predicate HasPeer(ds: seq<Peer>, id: nat)
  {
    exists i | 0 <= i < |ds| :: ds[i].id == id
  }

  /** The list without the component `id` (`components.remove`). */
  function DropPeer(ds: seq<Peer>, id: nat): (r: seq<Peer>)
    ensures forall d :: d in r <==> d in ds && d.id != id
    ensures !HasPeer(r, id)
  {
    if ds == [] then []
    else
      assert forall d | d in ds[1..] :: d in ds;
      var rest := DropPeer(ds[1..], id);
      if ds[0].id == id then rest else [ds[0]] + rest
  }

  /** The net holds the connection: the port for a port connection, the
      wire for a wire connection. */
  predicate InNet(l: LinkWires, c: Connection)
  {
    match c
    case PortConnection(pc) => pc in Members(l)
    case WireConnection(w, _) => w in l.wires
  }

  /** The first listed net holding the connection, if any. */
  function Owner(links: seq<LinkWires>, c: Connection): (r: Option<nat>)
    ensures r.Some? ==> r.value < |links| && InNet(links[r.value], c)
    ensures r.Some? ==> forall j | 0 <= j < r.value :: !InNet(links[j], c)
    ensures r.None? <==> forall j | 0 <= j < |links| :: !InNet(links[j], c)
  {
    OwnerFrom(links, c, 0)
  }

  function OwnerFrom(links: seq<LinkWires>, c: Connection, k: nat): (r: Option<nat>)
    requires forall j | 0 <= j < k && j < |links| :: !InNet(links[j], c)
    ensures r.Some? ==> r.value < |links| && InNet(links[r.value], c)
    ensures r.Some? ==> forall j | 0 <= j < r.value :: !InNet(links[j], c)
    ensures r.None? <==> forall j | 0 <= j < |links| :: !InNet(links[j], c)
    decreases |links| - k
  {
    if k >= |links| then None
    else if InNet(links[k], c) then Some(k)
    else OwnerFrom(links, c, k + 1)
  }

  /** The net of an unlisted connection: it alone, as a new port or wire
      starts out. */
  function LoneNet(c: Connection): (r: LinkWires)
    ensures InNet(r, c) && Coherent(r)
    ensures forall q :: q in Members(r) <==> c.PortConnection? && q == c.pc
    ensures forall v :: v in r.wires <==> c.WireConnection? && v == c.wire
  {
    match c
    case PortConnection(pc) => AddPort(Empty, pc)
    case WireConnection(w, _) => AddWire(Empty, w)
  }

  /** `connection.linkWires`: the owner, or the lone net. */
  function NetOf(links: seq<LinkWires>, c: Connection): (r: LinkWires)
    ensures InNet(r, c)
    ensures Owner(links, c).Some? ==> r == links[Owner(links, c).value]
    ensures Owner(links, c).None? ==> r == LoneNet(c)
  {
    match Owner(links, c)
    case Some(k) => links[k]
    case None => LoneNet(c)
  }

  /** The net a connection belongs to, listed: its owner, or its lone net
      added at the end of the list, as `links.add` does. */
  function Enlist(b: Board, c: Connection): (r: (Board, nat))
    ensures r.1 < |r.0.links| && InNet(r.0.links[r.1], c) && r.0.links[r.1] == NetOf(b.links, c)
    ensures Frame(b, r.0) && r.0.index == b.index
    ensures Owner(b.links, c).Some? ==> r == (b, Owner(b.links, c).value)
    ensures Owner(b.links, c).None? ==> r.0.links == b.links + [LoneNet(c)] && r.1 == |b.links|
  {
    match Owner(b.links, c)
    case Some(k) => (b, k)
    case None => (b.(links := b.links + [LoneNet(c)]), |b.links|)
  }

  /** The list without its `k`th net (`links.remove`). */
  function RemoveAt(links: seq<LinkWires>, k: nat): (r: seq<LinkWires>)
    requires k < |links|
    ensures |r| == |links| - 1
    ensures forall j | 0 <= j < |r| :: r[j] == if j < k then links[j] else links[j + 1]
  {
    links[..k] + links[k + 1..]
  }

  /** Some listed net holds the wire. */
  predicate Listed(links: seq<LinkWires>, v: Wire)
  {
    exists j | 0 <= j < |links| :: v in links[j].wires
  }

  /** Some listed net holds the port. */
  predicate Seated(links: seq<LinkWires>, q: PortConn)
  {
    exists j | 0 <= j < |links| :: q in Members(links[j])
  }

  /** The connection is filed under the point. */
  predicate Filed(m: Index, p: Point, d: Connection)
  {
    d in GetConnections(m, p.x, p.y)
  }

  /** `addConnection` for each connection in turn. */
  function FileAll(m: Index, cs: seq<Connection>): (r: Index)
    ensures IndexOk(m) ==> IndexOk(r)
    ensures forall p: Point, d :: Filed(r, p, d) <==> Filed(m, p, d) || (d in cs && Position(d) == p)
    decreases |cs|
  {
    if cs == [] then m
    else
      var m1 := AddConnection(m, cs[0]);
      assert forall p: Point, d :: Filed(m1, p, d) <==> Filed(m, p, d) || (d == cs[0] && Position(d) == p) by {
        forall p: Point, d
          ensures Filed(m1, p, d) <==> Filed(m, p, d) || (d == cs[0] && Position(d) == p)
        {
          if p != Position(cs[0]) {
            assert GetConnections(m1, p.x, p.y) == GetConnections(m, p.x, p.y);
          }
        }
      }
      var r := FileAll(m1, cs[1..]);
      assert forall d :: d in cs <==> d == cs[0] || d in cs[1..];
      r
  }

  /** `removeConnection` for each connection in turn. */
  function UnfileAll(m: Index, cs: seq<Connection>): (r: Index)
    ensures IndexOk(m) ==> IndexOk(r)
    ensures IndexOk(m) ==> forall p: Point, d :: Filed(r, p, d) <==> Filed(m, p, d) && d !in cs
    decreases |cs|
  {
    if cs == [] then m
    else
      var m1 := RemoveConnection(m, cs[0]);
      assert IndexOk(m) ==> forall p: Point, d :: Filed(m1, p, d) <==> Filed(m, p, d) && d != cs[0] by {
        if IndexOk(m) {
          forall p: Point, d
            ensures Filed(m1, p, d) <==> Filed(m, p, d) && d != cs[0]
          {
            if p != Position(cs[0]) {
              assert GetConnections(m1, p.x, p.y) == GetConnections(m, p.x, p.y);
            }
          }
        }
      }
      var r := UnfileAll(m1, cs[1..]);
      assert forall d :: d in cs <==> d == cs[0] || d in cs[1..];
      r
  }

  /** The private `addWire(linkWires, wire)`: the wire joins the listed net
      `k` and its connections are filed. */
  function PutWire(b: Board, k: nat, w: Wire): (r: Board)
    requires k < |b.links|
    ensures Frame(b, r) && |r.links| == |b.links|
    ensures forall j | 0 <= j < |b.links| && j != k :: r.links[j] == b.links[j]
    ensures r.links[k].ports == b.links[k].ports && r.links[k].invalid == b.links[k].invalid
    ensures forall v :: v in r.links[k].wires <==> v in b.links[k].wires || v == w
    ensures Coherent(b.links[k]) ==> Coherent(r.links[k])
    ensures IndexOk(b.index) ==> IndexOk(r.index)
    ensures forall p: Point, d :: Filed(r.index, p, d) <==> Filed(b.index, p, d) || (d in WireConnections(w) && Position(d) == p)
  {
    b.(links := b.links[k := AddWire(b.links[k], w)], index := FileAll(b.index, WireConnections(w)))
  }

  /** The net the wire belongs to, if listed. */
  function WireOwner(links: seq<LinkWires>, w: Wire): Option<nat>
  {
    Owner(links, WireConnection(w, Point(0, 0)))
  }

  /** The private `removeWire`: the wire's connections leave the index and
      the wire leaves its net. */
  function TakeWire(b: Board, w: Wire): (r: Board)
    ensures Frame(b, r) && |r.links| == |b.links|
    ensures forall j | 0 <= j < |b.links| ::
      r.links[j].ports == b.links[j].ports && r.links[j].invalid == b.links[j].invalid
    ensures forall j | 0 <= j < |b.links| && Some(j) != WireOwner(b.links, w) :: r.links[j] == b.links[j]
    ensures forall j, v | 0 <= j < |b.links| && Some(j) == WireOwner(b.links, w) ::
      v in r.links[j].wires <==> v in b.links[j].wires && v != w
    ensures forall j | 0 <= j < |b.links| :: Coherent(b.links[j]) ==> Coherent(r.links[j])
    ensures IndexOk(b.index) ==> IndexOk(r.index)
    ensures IndexOk(b.index) ==> forall p: Point, d :: Filed(r.index, p, d) <==> Filed(b.index, p, d) && d !in WireConnections(w)
  {
    var index := UnfileAll(b.index, WireConnections(w));
    match WireOwner(b.links, w)
    case None => b.(index := index)
    case Some(k) => b.(links := b.links[k := RemoveWire(b.links[k], w)], index := index)
  }

  /** The board-level `splitWire`: the wire is replaced in its net by its
      two halves either side of the connection's point. */
  function SplitWireAt(b: Board, w: Wire, c: Connection): (r: Result<Board>)
    ensures OnWire(w, Position(c)) ==> (r.Success? <==> Position(c) != Start(w) && Position(c) != End(w))
    ensures r.Success? ==> Frame(b, r.value)
  {
    var (b1, k) := Enlist(b, WireConnection(w, Point(0, 0)));
    var b2 := TakeWire(b1, w);
    var halves :- Splices.SplitWire(w, Position(c));
    Success(PutWire(PutWire(b2, k, halves.0), k, halves.1))
  }
}
