/** `CircuitBoard.addComponent` and `removeComponent`: placing a component
    joins each of its ports to the nets of whatever already sits at the
    port's point, and re-adds the wires the ports land in the middle of so
    that they are cut there; removing it takes its ports out of their nets
    and drops nets left with at most one port and no wire. */
module Placement {
  import opened Wrappers
  import opened OrderedSets
  import opened GuiElements
  import opened Wires
  import opened Connections
  import opened Links
  import opened Boards
  import Rejoining
  import Wiring

  /** Nets only gain ports and keep their wires. */
  predicate Widens(a: Board, r: Board)
  {
    && |r.links| >= |a.links|
    && forall j | 0 <= j < |a.links| ::
      r.links[j].wires == a.links[j].wires && forall u | u in Members(a.links[j]) :: u in Members(r.links[j])
  }

  /** Some net holds both the connection and the port. */
  predicate Joined(links: seq<LinkWires>, pc: PortConn, a: Connection)
  {
    exists j | 0 <= j < |links| :: InNet(links[j], a) && pc in Members(links[j])
  }

  lemma WidensJoined(a: Board, r: Board, pc: PortConn, c: Connection)
    requires Widens(a, r) && Joined(a.links, pc, c)
    ensures Joined(r.links, pc, c)
  {
    var j :| 0 <= j < |a.links| && InNet(a.links[j], c) && pc in Members(a.links[j]);
    assert InNet(r.links[j], c) && pc in Members(r.links[j]);
  }

  lemma WidensTrans(a: Board, b: Board, r: Board)
    requires Widens(a, b) && Widens(b, r)
    ensures Widens(a, r)
  {
  }

  /** A board whose nets only widened lists and seats all it did. */
  lemma WidensGrows(a: Board, r: Board)
    requires Widens(a, r)
    ensures Wiring.Grows(a, r)
  {
    forall u | Seated(a.links, u)
      ensures Seated(r.links, u)
    {
      var j :| 0 <= j < |a.links| && u in Members(a.links[j]);
      assert u in Members(r.links[j]);
    }
    forall v | Listed(a.links, v)
      ensures Listed(r.links, v)
    {
      var j :| 0 <= j < |a.links| && v in a.links[j].wires;
      assert v in r.links[j].wires;
    }
  }

  /** One attached connection: its net is listed and takes the port. */
  function AttachOne(b: Board, pc: PortConn, a: Connection): (r: Board)
    ensures Frame(b, r) && r.index == b.index
    ensures Widens(b, r) && Joined(r.links, pc, a)
  {
    var (b1, k) := Enlist(b, a);
    var r := b1.(links := b1.links[k := AddPort(b1.links[k], pc)]);
    assert InNet(r.links[k], a) && pc in Members(r.links[k]);
    r
  }

  /** The wires of the connections met away from their ends. */
  function MidWires(cs: seq<Connection>): (r: seq<Wire>)
    ensures forall w :: w in r <==> exists a | a in cs :: Wiring.MidWire(a) && a.wire == w
  {
    if cs == [] then []
    else
      var rest := MidWires(cs[1..]);
      assert forall a | a in cs :: a == cs[0] || a in cs[1..];
      if Wiring.MidWire(cs[0]) then [cs[0].wire] + rest else rest
  }

  /** The inner loop over `getConnections(connection.x, connection.y)` for
      one port: each connection found gets the port into its net. */
  function AttachAt(b: Board, pc: PortConn, attached: seq<Connection>): (r: Board)
    ensures Frame(b, r) && r.index == b.index && Widens(b, r)
    ensures forall a | a in attached :: Joined(r.links, pc, a)
    decreases |attached|
  {
    if attached == [] then b
    else
      var b1 := AttachOne(b, pc, attached[0]);
      var r := AttachAt(b1, pc, attached[1..]);
      WidensTrans(b, b1, r);
      WidensJoined(b1, r, pc, attached[0]);
      assert forall a | a in attached :: a == attached[0] || a in attached[1..];
      r
  }

  /** The connection is filed at the port's point. */
  predicate MetAt(m: Index, pc: PortConn, a: Connection)
  {
    a in GetConnections(m, PortPosition(pc).x, PortPosition(pc).y)
  }

  /** One of the ports met the wire away from its ends. */
  ghost predicate MidMet(m: Index, ps: seq<PortConn>, w: Wire)
  {
    exists pc, a | pc in ps && MetAt(m, pc, a) :: Wiring.MidWire(a) && a.wire == w
  }

  /** Filing a port connection keeps every bucket's old connections and
      adds no wire connection. */
  lemma FilePortGrows(m: Index, pc: PortConn)
    ensures forall x: PortConn, a | MetAt(m, x, a) :: MetAt(AddConnection(m, PortConnection(pc)), x, a)
    ensures forall x: PortConn, a | MetAt(AddConnection(m, PortConnection(pc)), x, a) && a.WireConnection? :: MetAt(m, x, a)
  {
  }

  /** The loop over the component's connections in `addComponent` when
      wires are split: each port joins the nets of the connections at its
      point and is then filed; the wires met away from their ends are
      collected in `toReAdd`. */
  function AttachAll(b: Board, ps: seq<PortConn>, toReAdd: seq<Wire>): (r: (Board, seq<Wire>))
    ensures Frame(b, r.0) && Widens(b, r.0)
    ensures Distinct(toReAdd) ==> Distinct(r.1)
    decreases |ps|
  {
    if ps == [] then (b, toReAdd)
    else
      var pc := ps[0];
      var p := PortPosition(pc);
      var attached := GetConnections(b.index, p.x, p.y);
      var b1 := AttachAt(b, pc, attached);
      var b2 := b1.(index := AddConnection(b1.index, PortConnection(pc)));
      var r := AttachAll(b2, ps[1..], InsertAll(toReAdd, MidWires(attached)));
      WidensTrans(b, b1, r.0);
      r
  }

  /** Every connection already at a port's point ends up in a net with
      the port. */
  lemma {:induction false} AttachAllJoins(b: Board, ps: seq<PortConn>, toReAdd: seq<Wire>)
    ensures forall pc, a | pc in ps && MetAt(b.index, pc, a) :: Joined(AttachAll(b, ps, toReAdd).0.links, pc, a)
    decreases |ps|
  {
    if ps != [] {
      var pc := ps[0];
      var p := PortPosition(pc);
      var attached := GetConnections(b.index, p.x, p.y);
      var b1 := AttachAt(b, pc, attached);
      var b2 := b1.(index := AddConnection(b1.index, PortConnection(pc)));
      var t := InsertAll(toReAdd, MidWires(attached));
      var r := AttachAll(b2, ps[1..], t);
      assert r == AttachAll(b, ps, toReAdd);
      AttachAllJoins(b2, ps[1..], t);
      FilePortGrows(b.index, pc);
      forall x, a | x in ps && MetAt(b.index, x, a)
        ensures Joined(r.0.links, x, a)
      {
        if x == pc {
          WidensJoined(b1, r.0, pc, a);
        } else {
          assert x in ps[1..];
        }
      }
    }
  }

  /** The index gains exactly the ports' connections. */
  lemma {:induction false} AttachAllFiles(b: Board, ps: seq<PortConn>, toReAdd: seq<Wire>)
    ensures forall p: Point, d :: Filed(AttachAll(b, ps, toReAdd).0.index, p, d) <==>
      (Filed(b.index, p, d) || (d.PortConnection? && d.pc in ps && Position(d) == p))
    decreases |ps|
  {
    if ps != [] {
      var pc := ps[0];
      var p := PortPosition(pc);
      var attached := GetConnections(b.index, p.x, p.y);
      var b1 := AttachAt(b, pc, attached);
      var b2 := b1.(index := AddConnection(b1.index, PortConnection(pc)));
      var t := InsertAll(toReAdd, MidWires(attached));
      AttachAllFiles(b2, ps[1..], t);
      assert forall x | x in ps :: x == pc || x in ps[1..];
      forall p: Point, d
        ensures Filed(b2.index, p, d) <==> Filed(b.index, p, d) || (d == PortConnection(pc) && Position(d) == p)
      {
        if p != Position(PortConnection(pc)) {
          assert GetConnections(b2.index, p.x, p.y) == GetConnections(b.index, p.x, p.y);
        }
      }
    }
  }

  /** `toReAdd` ends up holding exactly the wires some port met away from
      their ends. */
  lemma {:induction false} AttachAllReAdds(b: Board, ps: seq<PortConn>, toReAdd: seq<Wire>)
    ensures forall w :: w in AttachAll(b, ps, toReAdd).1 <==> w in toReAdd || MidMet(b.index, ps, w)
    decreases |ps|
  {
    if ps != [] {
      var pc := ps[0];
      var p := PortPosition(pc);
      var attached := GetConnections(b.index, p.x, p.y);
      var b1 := AttachAt(b, pc, attached);
      var b2 := b1.(index := AddConnection(b1.index, PortConnection(pc)));
      var t := InsertAll(toReAdd, MidWires(attached));
      AttachAllReAdds(b2, ps[1..], t);
      FilePortGrows(b.index, pc);
      assert forall x | x in ps :: x == pc || x in ps[1..];
      forall w
        ensures MidMet(b2.index, ps[1..], w) <==> MidMet(b.index, ps[1..], w)
      {
        if MidMet(b2.index, ps[1..], w) {
          var x, a :| x in ps[1..] && MetAt(b2.index, x, a) && Wiring.MidWire(a) && a.wire == w;
          assert MetAt(b.index, x, a);
        }
        if MidMet(b.index, ps[1..], w) {
          var x, a :| x in ps[1..] && MetAt(b.index, x, a) && Wiring.MidWire(a) && a.wire == w;
          assert MetAt(b2.index, x, a);
        }
      }
      forall w
        ensures MidMet(b.index, ps, w) <==> w in MidWires(attached) || MidMet(b.index, ps[1..], w)
      {
        if MidMet(b.index, ps, w) {
          var x, a :| x in ps && MetAt(b.index, x, a) && Wiring.MidWire(a) && a.wire == w;
          if x == pc {
            assert a in attached;
          } else {
            assert x in ps[1..];
          }
        }
        if w in MidWires(attached) {
          var a :| a in attached && Wiring.MidWire(a) && a.wire == w;
          assert MetAt(b.index, pc, a);
        }
      }
    }
  }

  /** The loop over `toReAdd`: each wire is taken off the board and added
      again with `addWire`, which now cuts it at the new ports. */
  function ReAddAll(b: Board, ws: seq<Wire>): (r: Result<Board>)
    ensures r.Success? ==> Frame(b, r.value)
    decreases |ws|
  {
    if ws == [] then Success(b)
    else
      var w := ws[0];
      var b1 :- Wiring.AddWire(TakeWire(b, w), Wiring.Request(w.x, w.y, w.length, w.horizontal));
      ReAddAll(b1, ws[1..])
  }

  /** Re-adding wires keeps every port in a net. */
  lemma {:induction false} ReAddKeepsPorts(b: Board, ws: seq<Wire>)
    requires ReAddAll(b, ws).Success?
    ensures forall u | Seated(b.links, u) :: Seated(ReAddAll(b, ws).value.links, u)
    decreases |ws|
  {
    if ws != [] {
      var w := ws[0];
      var q := Wiring.Request(w.x, w.y, w.length, w.horizontal);
      Wiring.TakeWireKeeps(b, w);
      Wiring.AddWireKeepsPorts(TakeWire(b, w), q);
      ReAddKeepsPorts(Wiring.AddWire(TakeWire(b, w), q).value, ws[1..]);
    }
  }

  /** `addComponent(component, splitWires)`. The location is checked first;
      `circuitFault` is what `circuit.addComponent` throws, if anything, in
      which case the component is taken off the list again. With
      `splitWires`, the ports are attached, the wires met in their middle
      are re-added and the board is rejoined. */
  function AddComponent(b: Board, c: Peer, splitWires: bool, circuitFault: Option<Fault>): (r: Result<Board>)
    ensures !IsValidLocation(b, c) ==> r == Failure(Simulation("Cannot place component here."))
    ensures IsValidLocation(b, c) && circuitFault.Some? ==> r == Failure(circuitFault.value)
    ensures IsValidLocation(b, c) && circuitFault.None? && !splitWires ==> r.Success?
    ensures r.Success? ==> forall d :: d in r.value.components <==> d in b.components || d == c
    ensures r.Success? ==> r.value.moving == b.moving && r.value.delta == b.delta && r.value.rejoin == b.rejoin
    ensures r.Success? && !splitWires ==> r.value.links == b.links && r.value.index == b.index
  {
    if !IsValidLocation(b, c) then Failure(Simulation("Cannot place component here."))
    else if circuitFault.Some? then Failure(circuitFault.value)
    else
      var b1 := b.(components := Insert(b.components, c));
      if !splitWires then Success(b1)
      else
        var (b2, toReAdd) := AttachAll(b1, PortConns(c), []);
        var b3 :- ReAddAll(b2, toReAdd);
        Success(Rejoining.RejoinWires(b3))
  }

  /** Once `addComponent` succeeds with wires split, every port that was
      in a net still is, and every port of the new component that met a
      connection on the board is in a net. */
  lemma AddComponentSeats(b: Board, c: Peer, circuitFault: Option<Fault>)
    requires AddComponent(b, c, true, circuitFault).Success?
    ensures var r := AddComponent(b, c, true, circuitFault).value;
      && (forall u | Seated(b.links, u) :: Seated(r.links, u))
      && (forall pc, a | pc in PortConns(c) && MetAt(b.index, pc, a) :: Seated(r.links, pc))
  {
    var b1 := b.(components := Insert(b.components, c));
    var (b2, toReAdd) := AttachAll(b1, PortConns(c), []);
    AttachAllJoins(b1, PortConns(c), []);
    WidensGrows(b1, b2);
    var b3 := ReAddAll(b2, toReAdd).value;
    ReAddKeepsPorts(b2, toReAdd);
    Rejoining.RejoinKeepsPorts(b3);
    var r := Rejoining.RejoinWires(b3);
    Wiring.SamePorts(b3.links, r.links);
    forall pc, a | pc in PortConns(c) && MetAt(b.index, pc, a)
      ensures Seated(r.links, pc)
    {
      assert Joined(b2.links, pc, a);
      var j :| 0 <= j < |b2.links| && InNet(b2.links[j], a) && pc in Members(b2.links[j]);
      assert Seated(b2.links, pc);
    }
  }

  /** The nets after one port of `removeComponent` leaves them: the port
      leaves its net, which is dropped once it has at most one port and no
      wire left. A port no listed net holds sits in a net of its own, whose
      change nothing on the board sees. */
  function DetachNet(links: seq<LinkWires>, pc: PortConn): (r: seq<LinkWires>)
    ensures AllCoherent(links) ==> AllCoherent(r)
  {
    match Owner(links, PortConnection(pc))
    case None => links
    case Some(k) =>
      var l := RemovePort(links[k], pc);
      if IsEmpty(l) then RemoveAt(links, k) else links[k := l]
  }

  /** One port of `removeComponent`: its connection leaves the index and
      the port leaves its net. */
  function DetachPort(b: Board, pc: PortConn): (r: Board)
    ensures Frame(b, r)
    ensures forall k: Point | k != PortPosition(pc) :: GetConnections(r.index, k.x, k.y) == GetConnections(b.index, k.x, k.y)
    ensures forall d :: d in GetConnections(r.index, PortPosition(pc).x, PortPosition(pc).y) <==>
      d in GetConnections(b.index, PortPosition(pc).x, PortPosition(pc).y) && d != PortConnection(pc)
    ensures IndexOk(b.index) ==> IndexOk(r.index)
  {
    b.(links := DetachNet(b.links, pc), index := RemoveConnection(b.index, PortConnection(pc)))
  }

  /** The nets after each port in turn leaves them. */
  function DetachNets(links: seq<LinkWires>, ps: seq<PortConn>): seq<LinkWires>
    decreases |ps|
  {
    if ps == [] then links else DetachNets(DetachNet(links, ps[0]), ps[1..])
  }

  /** The loop of `removeComponent` over the component's connections: the
      index loses exactly their connections. */
  function DetachAll(b: Board, ps: seq<PortConn>): (r: Board)
    ensures Frame(b, r) && r.links == DetachNets(b.links, ps)
    ensures IndexOk(b.index) ==> IndexOk(r.index)
    ensures IndexOk(b.index) ==> forall p: Point, d :: Filed(r.index, p, d) <==>
      (Filed(b.index, p, d) && !(d.PortConnection? && d.pc in ps))
    decreases |ps|
  {
    if ps == [] then b
    else
      var b1 := DetachPort(b, ps[0]);
      assert IndexOk(b.index) ==> forall p: Point, d :: Filed(b1.index, p, d) <==> (Filed(b.index, p, d) && d != PortConnection(ps[0])) by {
        if IndexOk(b.index) {
          forall p: Point, d
            ensures Filed(b1.index, p, d) <==> (Filed(b.index, p, d) && d != PortConnection(ps[0]))
          {
            if p != PortPosition(ps[0]) {
              assert GetConnections(b1.index, p.x, p.y) == GetConnections(b.index, p.x, p.y);
              assert d == PortConnection(ps[0]) ==> !Filed(b.index, p, d);
            }
          }
        }
      }
      assert forall q | q in ps :: q == ps[0] || q in ps[1..];
      DetachAll(b1, ps[1..])
  }

  /** `removeComponent(component, removeFromComponentsList)`: nothing for a
      component not on the board; otherwise each port is detached, and the
      component leaves the list when asked. */
  function RemoveComponent(b: Board, c: Peer, fromList: bool): (r: Board)
    ensures c !in b.components ==> r == b
    ensures r.moving == b.moving && r.delta == b.delta && r.rejoin == b.rejoin && r.anchored == b.anchored
    ensures c in b.components && fromList ==> forall d :: d in r.components <==> d in b.components && d != c
    ensures !fromList ==> r.components == b.components
  {
    if c !in b.components then b
    else
      var r := DetachAll(b, PortConns(c));
      if fromList then r.(components := Delete(r.components, c)) else r
  }

  /** Every net is coherent. */
  predicate AllCoherent(links: seq<LinkWires>)
  {
    forall j | 0 <= j < |links| :: Coherent(links[j])
  }

  /** At most one net holds the port. */
  predicate Once(links: seq<LinkWires>, q: PortConn)
  {
    forall i, j | 0 <= i < |links| && 0 <= j < |links| && q in Members(links[i]) && q in Members(links[j]) :: i == j
  }

  /** Some net holds both ports. */
  predicate Together(links: seq<LinkWires>, u: PortConn, v: PortConn)
  {
    exists j | 0 <= j < |links| :: u in Members(links[j]) && v in Members(links[j])
  }

  /** A port held by one net only is held by none once detached. */
  lemma DetachUnseats(links: seq<LinkWires>, pc: PortConn)
    requires AllCoherent(links) && Once(links, pc)
    ensures !Seated(DetachNet(links, pc), pc)
  {
    var r := DetachNet(links, pc);
    match Owner(links, PortConnection(pc))
    case None =>
    case Some(k) =>
      var l := RemovePort(links[k], pc);
      if IsEmpty(l) {
        forall j | 0 <= j < |r|
          ensures pc !in Members(r[j])
        {
          if j < k {
            assert r[j] == links[j];
          } else {
            assert r[j] == links[j + 1];
          }
        }
      } else {
        forall j | 0 <= j < |r|
          ensures pc !in Members(r[j])
        {
          if j != k {
            assert r[j] == links[j];
          }
        }
      }
  }

  /** Detaching adds no port. */
  lemma DetachSeated(links: seq<LinkWires>, pc: PortConn)
    requires AllCoherent(links)
    ensures forall q | Seated(DetachNet(links, pc), q) :: Seated(links, q)
  {
    var r := DetachNet(links, pc);
    match Owner(links, PortConnection(pc))
    case None =>
    case Some(k) =>
      var l := RemovePort(links[k], pc);
      if IsEmpty(l) {
        Wiring.RemoveAtPools(links, k);
      } else {
        forall q | Seated(r, q)
          ensures Seated(links, q)
        {
          var j :| 0 <= j < |r| && q in Members(r[j]);
          assert q in Members(links[j]);
        }
      }
  }

  /** Detaching loses no wire and adds none: only nets without wires are
      dropped. */
  lemma DetachListed(links: seq<LinkWires>, pc: PortConn)
    ensures forall v :: Listed(DetachNet(links, pc), v) <==> Listed(links, v)
  {
    var r := DetachNet(links, pc);
    match Owner(links, PortConnection(pc))
    case None =>
    case Some(k) =>
      var l := RemovePort(links[k], pc);
      if IsEmpty(l) {
        Wiring.RemoveAtPools(links, k);
        forall v | Listed(links, v)
          ensures Listed(r, v)
        {
          var j :| 0 <= j < |links| && v in links[j].wires;
          assert j != k;
        }
      } else {
        forall v | Listed(links, v)
          ensures Listed(r, v)
        {
          var j :| 0 <= j < |links| && v in links[j].wires;
          assert v in r[j].wires;
        }
        forall v | Listed(r, v)
          ensures Listed(links, v)
        {
          var j :| 0 <= j < |r| && v in r[j].wires;
          assert v in links[j].wires;
        }
      }
  }

  /** A port held by at most one net still is. */
  lemma DetachOnce(links: seq<LinkWires>, pc: PortConn, q: PortConn)
    requires AllCoherent(links) && Once(links, q)
    ensures Once(DetachNet(links, pc), q)
  {
    var r := DetachNet(links, pc);
    match Owner(links, PortConnection(pc))
    case None =>
    case Some(k) =>
      var l := RemovePort(links[k], pc);
      forall i, j | 0 <= i < |r| && 0 <= j < |r| && q in Members(r[i]) && q in Members(r[j])
        ensures i == j
      {
        if IsEmpty(l) {
          var i' := if i < k then i else i + 1;
          var j' := if j < k then j else j + 1;
          assert r[i] == links[i'] && r[j] == links[j'];
        } else {
          assert q in Members(links[i]) && q in Members(links[j]);
        }
      }
  }

  /** A coherent net keeps two other ports when one port leaves it, and
      so is not empty. */
  lemma RemovePortKeepsTwo(l: LinkWires, pc: PortConn, u: PortConn, v: PortConn)
    requires Coherent(l) && u in Members(l) && v in Members(l) && u != pc && v != pc && u != v
    ensures var r := RemovePort(l, pc); u in Members(r) && v in Members(r) && !IsEmpty(r)
  {
    TwoPortsNotEmpty(RemovePort(l, pc), u, v);
  }

  /** Two other ports sharing a net still share one once a port is
      detached: their net keeps two ports and so is not dropped. */
  lemma DetachKeepsPairs(links: seq<LinkWires>, pc: PortConn, u: PortConn, v: PortConn)
    requires AllCoherent(links) && u != pc && v != pc && u != v && Together(links, u, v)
    ensures Together(DetachNet(links, pc), u, v)
  {
    var r := DetachNet(links, pc);
    var j :| 0 <= j < |links| && u in Members(links[j]) && v in Members(links[j]);
    var o := Owner(links, PortConnection(pc));
    if o.Some? {
      var k := o.value;
      var l := RemovePort(links[k], pc);
      if j == k {
        RemovePortKeepsTwo(links[k], pc, u, v);
        assert r == links[k := l];
        assert u in Members(r[k]) && v in Members(r[k]);
      } else if IsEmpty(l) {
        var j' := if j < k then j else j - 1;
        assert r[j'] == links[j];
      } else {
        assert r[j] == links[j];
      }
    }
  }

  /** Detaching ports one by one: the nets stay coherent, none of the
      ports is left in a net, no port joins one, and the wires stay. */
  lemma {:induction false} DetachAllNets(links: seq<LinkWires>, ps: seq<PortConn>)
    requires AllCoherent(links) && forall q | q in ps :: Once(links, q)
    ensures var r := DetachNets(links, ps);
      && AllCoherent(r)
      && (forall q | q in ps :: !Seated(r, q))
      && (forall q | Seated(r, q) :: Seated(links, q))
      && (forall v :: Listed(r, v) <==> Listed(links, v))
    decreases |ps|
  {
    if ps != [] {
      var l1 := DetachNet(links, ps[0]);
      DetachUnseats(links, ps[0]);
      DetachSeated(links, ps[0]);
      DetachListed(links, ps[0]);
      forall q | q in ps[1..]
        ensures Once(l1, q)
      {
        DetachOnce(links, ps[0], q);
      }
      DetachAllNets(l1, ps[1..]);
      assert forall q | q in ps :: q == ps[0] || q in ps[1..];
    }
  }

  /** Two ports that are not detached and share a net still share one. */
  lemma {:induction false} DetachAllPairs(links: seq<LinkWires>, ps: seq<PortConn>, u: PortConn, v: PortConn)
    requires AllCoherent(links) && u !in ps && v !in ps && u != v && Together(links, u, v)
    ensures Together(DetachNets(links, ps), u, v)
    decreases |ps|
  {
    if ps != [] {
      DetachKeepsPairs(links, ps[0], u, v);
      assert u !in ps[1..] && v !in ps[1..];
      DetachAllPairs(DetachNet(links, ps[0]), ps[1..], u, v);
    }
  }

  /** `removeComponent` of a component on the board whose nets are
      coherent and hold each of its ports at most once: the index loses
      exactly the component's connections, none of its ports is left in a
      net, no wire is lost or gained, and any two other ports that shared a
      net still do. */
  lemma RemoveComponentDetaches(b: Board, c: Peer, fromList: bool)
    requires c in b.components && IndexOk(b.index) && AllCoherent(b.links)
    requires forall q | q in PortConns(c) :: Once(b.links, q)
    ensures var r := RemoveComponent(b, c, fromList);
      && IndexOk(r.index)
      && (forall p: Point, d :: Filed(r.index, p, d) <==> Filed(b.index, p, d) && d !in PeerConnections(c))
      && AllCoherent(r.links)
      && (forall q | q in PortConns(c) :: !Seated(r.links, q))
      && (forall v :: Listed(r.links, v) <==> Listed(b.links, v))
      && (forall u, v | u !in PortConns(c) && v !in PortConns(c) && u != v && Together(b.links, u, v) :: Together(r.links, u, v))
  {
    var ps := PortConns(c);
    var r := RemoveComponent(b, c, fromList);
    DetachAllNets(b.links, ps);
    forall u, v | u !in ps && v !in ps && u != v && Together(b.links, u, v)
      ensures Together(r.links, u, v)
    {
      DetachAllPairs(b.links, ps, u, v);
    }
    forall d
      ensures d in PeerConnections(c) <==> d.PortConnection? && d.pc in ps
    {
      if d.PortConnection? && d.pc in ps {
        var i :| 0 <= i < |ps| && ps[i] == d.pc;
        assert PeerConnections(c)[i] == d;
      }
    }
  }

  /** The port is in no net and not filed. */
  predicate Loose(b: Board, q: PortConn)
  {
    !Seated(b.links, q) && !MetAt(b.index, q, PortConnection(q))
  }

  /** Detaching ports that are in no net and not filed changes nothing. */
  lemma {:induction false} DetachLoose(b: Board, ps: seq<PortConn>)
    requires IndexOk(b.index) && forall q | q in ps :: Loose(b, q)
    ensures DetachAll(b, ps) == b
    decreases |ps|
  {
    if ps != [] {
      var q := ps[0];
      var cn := PortConnection(q);
      assert Loose(b, q);
      forall j | 0 <= j < |b.links|
        ensures !InNet(b.links[j], cn)
      {
        assert q !in Members(b.links[j]);
      }
      var k := Position(cn);
      if k in b.index {
        assert cn !in b.index[k];
        assert Delete(b.index[k], cn) == b.index[k];
        assert RemoveConnection(b.index, cn) == b.index[k := b.index[k]];
      }
      assert DetachPort(b, q) == b;
      DetachLoose(b, ps[1..]);
    }
  }

  /** Placing a component without splitting wires and removing it again
      gives the board back, when none of its ports was in a net or filed. */
  lemma AddThenRemove(b: Board, c: Peer)
    requires IsValidLocation(b, c) && c !in b.components && IndexOk(b.index)
    requires forall q | q in PortConns(c) :: Loose(b, q)
    ensures AddComponent(b, c, false, None).Success?
    ensures RemoveComponent(AddComponent(b, c, false, None).value, c, true) == b
  {
    var b1 := AddComponent(b, c, false, None).value;
    assert b1 == b.(components := b.components + [c]);
    DetachLoose(b1, PortConns(c));
    DeleteInsert(b.components, c);
  }
}
