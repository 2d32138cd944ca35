/** The connection points on the board (Connection.kt) and the board's
    coordinate index of them (`connectionsMap` in CircuitBoard.kt).

    A connection sits at an offset from its parent: a component for a port
    connection, a wire for a wire connection. The `LinkWires` a connection
    belongs to is not stored here: the board records it (a port connection
    is in the `LinkWires` that lists it, a wire connection in the one that
    lists its wire). */
module Connections {
  import opened Wrappers
  import opened OrderedSets
  import opened GuiElements
  import opened Wires

  /** A component's port as placed on the board: the component, the port's
      index on it, its label, the component's origin, the port's offset from
      it, and the width of the port's link. */
  datatype PortConn = PortConn(component: nat, port: nat, name: string, parent: Point, offset: Point, bitSize: nat)

  datatype Connection =
    | PortConnection(pc: PortConn)
    | WireConnection(wire: Wire, offset: Point)

  /** `x` and `y`: the parent's origin plus the offset. */
  function Position(c: Connection): (p: Point)
    ensures c.PortConnection? ==> p == PortPosition(c.pc)
    ensures c.WireConnection? ==> p == Point(c.wire.x + c.offset.x, c.wire.y + c.offset.y)
  {
    match c
    case PortConnection(pc) => PortPosition(pc)
    case WireConnection(w, o) => Point(w.x + o.x, w.y + o.y)
  }

  function PortPosition(pc: PortConn): Point
  {
    Point(pc.parent.x + pc.offset.x, pc.parent.y + pc.offset.y)
  }

  /** `isAt`. */
  predicate IsAt(c: Connection, x: int, y: int)
  {
    Position(c) == Point(x, y)
  }

  /** The connections a wire creates, one per grid step from its start. */
  function WireConnections(w: Wire): (r: seq<Connection>)
    ensures |r| == w.length + 1
    ensures forall i | 0 <= i < |r| :: r[i].WireConnection? && r[i].wire == w && Position(r[i]) == Points(w)[i]
  {
    seq(w.length + 1, i requires 0 <= i <= w.length => WireConnection(w, Along(Point(0, 0), w.horizontal, i)))
  }

  /** `startConnection` or `endConnection` of its wire. */
  predicate IsWireEnd(c: Connection)
  {
    c.WireConnection? && (c.offset == Point(0, 0) || c.offset == Along(Point(0, 0), c.wire.horizontal, c.wire.length))
  }

  /** The same connection after its parent moved by (dx, dy). */
  function Moved(c: Connection, dx: int, dy: int): Connection
  {
    match c
    case PortConnection(pc) =>
      PortConnection(pc.(parent := Point(pc.parent.x + dx, pc.parent.y + dy)))
    case WireConnection(w, o) =>
      WireConnection(w.(x := w.x + dx, y := w.y + dy), o)
  }

  /** Moving the parent moves the connection by the same amount, keeping its
      kind and offset. */
  lemma MovedShifts(c: Connection, dx: int, dy: int, x: int, y: int)
    ensures Position(Moved(c, dx, dy)) == Point(Position(c).x + dx, Position(c).y + dy)
    ensures IsAt(Moved(c, dx, dy), x + dx, y + dy) <==> IsAt(c, x, y)
    ensures Moved(c, dx, dy).PortConnection? == c.PortConnection? && IsWireEnd(Moved(c, dx, dy)) == IsWireEnd(c)
    ensures c.PortConnection? ==> Moved(c, dx, dy).pc.offset == c.pc.offset
    ensures c.WireConnection? ==> Moved(c, dx, dy).offset == c.offset
  {
  }

  /** A wire's connections are its grid points, its ends are the first and
      last of them, and none of its other connections is an end. */
  lemma WireConnectionsEnds(w: Wire)
    ensures var cs := WireConnections(w);
      IsWireEnd(cs[0]) && IsWireEnd(cs[w.length])
      && Position(cs[0]) == Start(w) && Position(cs[w.length]) == End(w)
      && forall i | 0 < i < w.length :: !IsWireEnd(cs[i])
  {
  }

  /** `connectionsMap`: each grid point with the connections there, in
      iteration order. */
  type Index = map<Point, seq<Connection>>

  /** No empty bucket is kept, a bucket holds each connection once, and a
      connection is filed under its own position. */
  predicate IndexOk(m: Index)
  {
    forall k | k in m :: m[k] != [] && Distinct(m[k]) && forall c | c in m[k] :: Position(c) == k
  }

  /** `getConnections`: the bucket, or nothing for a point without one. */
  function GetConnections(m: Index, x: int, y: int): (r: seq<Connection>)
    ensures Point(x, y) !in m ==> r == []
    ensures IndexOk(m) ==> forall c | c in r :: IsAt(c, x, y)
  {
    if Point(x, y) in m then m[Point(x, y)] else []
  }

  /** `findConnection`: the first connection at the point, if any. */
  function FindConnection(m: Index, x: int, y: int): (r: Option<Connection>)
    ensures r.None? <==> GetConnections(m, x, y) == []
    ensures r.Some? ==> r.value in GetConnections(m, x, y)
  {
    var cs := GetConnections(m, x, y);
    if cs == [] then None else Some(cs[0])
  }

  /** `addConnection`: files the connection under its position. */
  function AddConnection(m: Index, c: Connection): (r: Index)
    ensures IndexOk(m) ==> IndexOk(r)
    ensures forall d :: d in GetConnections(r, Position(c).x, Position(c).y) <==>
      d in GetConnections(m, Position(c).x, Position(c).y) || d == c
    ensures forall k | k != Position(c) :: GetConnections(r, k.x, k.y) == GetConnections(m, k.x, k.y)
  {
    var k := Position(c);
    m[k := Insert(GetConnections(m, k.x, k.y), c)]
  }

  /** `removeConnection`: takes the connection out of its position's
      bucket, dropping the bucket once it is empty. */
  function RemoveConnection(m: Index, c: Connection): (r: Index)
    ensures IndexOk(m) ==> IndexOk(r)
    ensures forall d :: d in GetConnections(r, Position(c).x, Position(c).y) <==>
      d in GetConnections(m, Position(c).x, Position(c).y) && d != c
    ensures forall k | k != Position(c) :: GetConnections(r, k.x, k.y) == GetConnections(m, k.x, k.y)
  {
    var k := Position(c);
    if k !in m then m
    else
      var rest := Delete(m[k], c);
      if rest == [] then m - {k} else m[k := rest]
  }

  /** Filing a connection that was not there and taking it out again leaves
      the index as it was. */
  lemma RemoveAfterAdd(m: Index, c: Connection)
    requires IndexOk(m) && c !in GetConnections(m, Position(c).x, Position(c).y)
    ensures RemoveConnection(AddConnection(m, c), c) == m
  {
    var k := Position(c);
    DeleteInsert(GetConnections(m, k.x, k.y), c);
  }
}
