/** A net as the editor sees it (LinkWires.kt): the wires drawn for it and
    the component ports they join. Ports whose width disagrees with the
    net's are kept apart as invalid, and the last such failure is
    remembered.

    Linking a port into the net can fail in the source only when the widths
    differ (every port on a board belongs to the board's circuit), so the
    net's width is that of its first valid port. */
module Links {
  import opened Wrappers
  import opened OrderedSets
  import opened GuiElements
  import opened Wires
  import opened Connections

  /** The failure `linkPort` reports for a port of another width. */
  const BIT_SIZE_ERROR: Fault := IllegalArgument("Links have different bit sizes.")

  datatype LinkWires = LinkWires(ports: seq<PortConn>, invalid: seq<PortConn>, wires: seq<Wire>, lastError: Option<Fault>)

  /** A new `LinkWires`. */
  const Empty: LinkWires := LinkWires([], [], [], None)

  /** Every port, valid or not. */
  function Members(l: LinkWires): seq<PortConn>
  {
    l.ports + l.invalid
  }

  /** What the operations keep true: each port is listed once, as valid or
      as invalid; invalid ports exist only beside valid ones; the valid
      ports share a width and the invalid ones do not have it; and an
      invalid port means a failure was recorded. */
  predicate Coherent(l: LinkWires)
  {
    && Distinct(l.ports) && Distinct(l.invalid) && Distinct(l.wires)
    && (forall q | q in l.invalid :: q !in l.ports)
    && (l.ports == [] ==> l.invalid == [])
    && (forall q | q in l.ports :: q.bitSize == l.ports[0].bitSize)
    && (forall q | q in l.invalid :: q.bitSize != l.ports[0].bitSize)
    && (l.invalid != [] ==> l.lastError == Some(BIT_SIZE_ERROR))
  }

  /** `isLinkValid`. */
  predicate IsLinkValid(l: LinkWires)
  {
    l.invalid == []
  }

  /** `isEmpty`: at most one port and no wire. */
  predicate IsEmpty(l: LinkWires)
  {
    |l.ports| + |l.invalid| <= 1 && l.wires == []
  }

  /** A coherent net is valid exactly when all its ports have one width. */
  lemma LinkValidIffOneWidth(l: LinkWires)
    requires Coherent(l)
    ensures IsLinkValid(l) <==> forall i | 0 <= i < |Members(l)| :: Members(l)[i].bitSize == Members(l)[0].bitSize
  {
    if !IsLinkValid(l) {
      assert Members(l)[|l.ports|] == l.invalid[0];
    }
  }

  /** Two different ports of a coherent net make it non-empty. */
  lemma TwoPortsNotEmpty(l: LinkWires, a: PortConn, b: PortConn)
    requires Coherent(l) && a in Members(l) && b in Members(l) && a != b
    ensures |l.ports| + |l.invalid| >= 2
  {
  }

  /** `addWire`. */
  function AddWire(l: LinkWires, w: Wire): (r: LinkWires)
    ensures r.ports == l.ports && r.invalid == l.invalid && r.lastError == l.lastError
    ensures forall v :: v in r.wires <==> v in l.wires || v == w
    ensures Coherent(l) ==> Coherent(r)
  {
    l.(wires := Insert(l.wires, w))
  }

  /** `removeWire`. */
  function RemoveWire(l: LinkWires, w: Wire): (r: LinkWires)
    ensures r.ports == l.ports && r.invalid == l.invalid && r.lastError == l.lastError
    ensures forall v :: v in r.wires <==> v in l.wires && v != w
    ensures Coherent(l) ==> Coherent(r)
  {
    l.(wires := Delete(l.wires, w))
  }

  /** `addPort`: the port joins the valid ports when the net has none yet or
      when its width matches; otherwise it is recorded as invalid together
      with the failure. */
  function AddPort(l: LinkWires, p: PortConn): (r: LinkWires)
    ensures r.wires == l.wires
    ensures forall q :: q in Members(r) <==> q in Members(l) || q == p
    ensures Coherent(l) ==> Coherent(r)
    ensures Coherent(l) ==> (p in r.ports <==> l.ports == [] || p.bitSize == l.ports[0].bitSize)
    ensures r.lastError != l.lastError ==> p in r.invalid && r.lastError == Some(BIT_SIZE_ERROR)
  {
    if l.ports == [] then l.(ports := Insert(l.ports, p))
    else if p in l.ports then l
    else if p.bitSize != l.ports[0].bitSize then l.(invalid := Insert(l.invalid, p), lastError := Some(BIT_SIZE_ERROR))
    else l.(ports := Insert(l.ports, p))
  }

  /** A port already in a coherent net adds nothing. */
  lemma AddPortPresent(l: LinkWires, p: PortConn)
    requires Coherent(l) && p in Members(l)
    ensures AddPort(l, p) == l
  {
  }

  /** `addPort` of each port in turn. */
  function AddPorts(l: LinkWires, ps: seq<PortConn>): (r: LinkWires)
    ensures r.wires == l.wires
    ensures forall q :: q in Members(r) <==> q in Members(l) || q in ps
    ensures Coherent(l) ==> Coherent(r)
    decreases |ps|
  {
    if ps == [] then l else AddPorts(AddPort(l, ps[0]), ps[1..])
  }

  /** `addWire` of each wire in turn. */
  function AddWires(l: LinkWires, ws: seq<Wire>): (r: LinkWires)
    ensures r.ports == l.ports && r.invalid == l.invalid && r.lastError == l.lastError
    ensures forall v :: v in r.wires <==> v in l.wires || v in ws
    ensures Coherent(l) ==> Coherent(r)
    decreases |ws|
  {
    if ws == [] then l else AddWires(AddWire(l, ws[0]), ws[1..])
  }

  /** `removePort`: a port that is not valid is simply dropped from the
      invalid ones; removing the last valid port empties the net and adds
      every invalid port back, so the first of them sets the net's width. */
  function RemovePort(l: LinkWires, p: PortConn): (r: LinkWires)
    ensures r.wires == l.wires
    ensures Coherent(l) ==> Coherent(r)
    ensures Coherent(l) ==> forall q :: q in Members(r) <==> q in Members(l) && q != p
    ensures l.ports == [p] && Coherent(l) && l.invalid != [] ==> r.ports != [] && r.ports[0] == l.invalid[0]
  {
    if p !in l.ports then l.(invalid := Delete(l.invalid, p))
    else
      var rest := Delete(l.ports, p);
      if rest == [] then
        if l.invalid != [] then
          AddPortsFirst(l.(ports := [], invalid := []), l.invalid);
          AddPorts(l.(ports := [], invalid := []), l.invalid)
        else AddPorts(l.(ports := [], invalid := []), l.invalid)
      else
        assert rest[0] in l.ports;
        l.(ports := rest)
  }

  /** Adding ports to a net without valid ports makes the first of them valid. */
  lemma AddPortsFirst(l: LinkWires, ps: seq<PortConn>)
    requires l.ports == [] && ps != []
    ensures AddPorts(l, ps).ports != [] && AddPorts(l, ps).ports[0] == ps[0]
  {
    AddPortsKeepsFirst(AddPort(l, ps[0]), ps[1..]);
  }

  lemma {:induction false} AddPortsKeepsFirst(l: LinkWires, ps: seq<PortConn>)
    requires l.ports != []
    ensures AddPorts(l, ps).ports != [] && AddPorts(l, ps).ports[0] == l.ports[0]
    decreases |ps|
  {
    if ps != [] {
      AddPortsKeepsFirst(AddPort(l, ps[0]), ps[1..]);
    }
  }

  /** `removePort` of each port in turn. */
  function RemovePorts(l: LinkWires, ps: seq<PortConn>): (r: LinkWires)
    ensures r.wires == l.wires
    ensures Coherent(l) ==> Coherent(r)
    ensures Coherent(l) ==> forall q :: q in Members(r) <==> q in Members(l) && q !in ps
    decreases |ps|
  {
    if ps == [] then l else RemovePorts(RemovePort(l, ps[0]), ps[1..])
  }

  /** `removeWire` of each wire in turn. */
  function RemoveWires(l: LinkWires, ws: seq<Wire>): (r: LinkWires)
    ensures r.ports == l.ports && r.invalid == l.invalid
    ensures Coherent(l) ==> Coherent(r)
    ensures forall v :: v in r.wires <==> v in l.wires && v !in ws
    decreases |ws|
  {
    if ws == [] then l else RemoveWires(RemoveWire(l, ws[0]), ws[1..])
  }

  /** `clear`: every port removed, then every wire. */
  function Clear(l: LinkWires): (r: LinkWires)
    ensures Coherent(l) ==> r.ports == [] && r.invalid == [] && r.wires == []
  {
    var bare := RemovePorts(l, Members(l));
    var r := RemoveWires(bare, l.wires);
    assert Coherent(l) ==> r.ports == [] && r.invalid == [] && r.wires == [] by {
      if Coherent(l) {
        assert forall q :: q !in Members(bare);
        assert forall q :: q in bare.ports || q in bare.invalid ==> q in Members(bare);
        EmptyIffNoMember(bare.ports);
        EmptyIffNoMember(bare.invalid);
        EmptyIffNoMember(r.wires);
      }
    }
    r
  }

  /** `merge`: nothing when merging a net with itself; otherwise the other's
      valid ports, then its invalid ports, then its wires are added. */
  function Merge(l: LinkWires, other: LinkWires): (r: LinkWires)
    ensures Coherent(l) ==> Coherent(r)
    ensures forall q :: q in Members(r) <==> q in Members(l) || q in Members(other)
    ensures forall v :: v in r.wires <==> v in l.wires || v in other.wires
  {
    if l == other then l else Absorb(l, other)
  }

  /** The body of `merge` without the check for the same net. */
  function Absorb(l: LinkWires, other: LinkWires): (r: LinkWires)
    ensures Coherent(l) ==> Coherent(r)
    ensures forall q :: q in Members(r) <==> q in Members(l) || q in Members(other)
    ensures forall v :: v in r.wires <==> v in l.wires || v in other.wires
  {
    AddWires(AddPorts(AddPorts(l, other.ports), other.invalid), other.wires)
  }

  /** The check for the same net changes nothing: absorbing a coherent net
      into itself leaves it as it was. */
  lemma {:induction false} AbsorbSelf(l: LinkWires)
    requires Coherent(l)
    ensures Absorb(l, l) == l
  {
    AddPortsPresent(l, l.ports);
    AddPortsPresent(l, l.invalid);
    AddWiresPresent(l, l.wires);
  }

  lemma {:induction false} AddPortsPresent(l: LinkWires, ps: seq<PortConn>)
    requires Coherent(l) && forall i | 0 <= i < |ps| :: ps[i] in Members(l)
    ensures AddPorts(l, ps) == l
    decreases |ps|
  {
    if ps != [] {
      AddPortPresent(l, ps[0]);
      AddPortsPresent(l, ps[1..]);
    }
  }

  lemma {:induction false} AddWiresPresent(l: LinkWires, ws: seq<Wire>)
    requires forall i | 0 <= i < |ws| :: ws[i] in l.wires
    ensures AddWires(l, ws) == l
    decreases |ws|
  {
    if ws != [] {
      AddWiresPresent(l, ws[1..]);
    }
  }

  /** `connsEqual` on some pair of ends: the two wires meet end to end (or
      end to start). Crossing wires do not touch. */
  predicate Touch(a: Wire, b: Wire)
  {
    Start(a) == Start(b) || Start(a) == End(b) || End(a) == Start(b) || End(a) == End(b)
  }

  /** What `findAttachedConnections` promises for a wire `w`, pools
      `wires` and `ports`, and result `r`: the net holds the wires it took
      from the pool and the ports it took from the port pool, and nothing
      left in either pool touches `w` or the net's wires or lies on them. */
  ghost predicate Gathered(w: Wire, wires: seq<Wire>, ports: seq<PortConn>, r: (LinkWires, seq<Wire>, seq<PortConn>))
  {
    && |r.1| <= |wires| && (forall v | v in r.1 :: v in wires)
    && (forall v :: v in r.0.wires <==> v in wires && v !in r.1)
    && (forall v | v in r.1 :: !Touch(v, w) && forall u | u in r.0.wires :: !Touch(v, u))
    && (forall q | q in r.2 :: q in ports)
    && (forall q :: q in Members(r.0) <==> q in ports && q !in r.2)
    && (forall q | q in r.2 :: !OnWire(w, PortPosition(q)) && forall u | u in r.0.wires :: !OnWire(u, PortPosition(q)))
    && (forall q | q in Members(r.0) :: OnWire(w, PortPosition(q)) || exists u | u in r.0.wires :: OnWire(u, PortPosition(q)))
    && Coherent(r.0)
  }

  /** The state of the loop over taken wires: `net` holds the wires taken
      so far, `todo` those whose attachments are still to collect; every
      other wire of the net has nothing left in the pools touching it. */
  ghost predicate Pending(net: LinkWires, todo: seq<Wire>, wires: seq<Wire>, ports: seq<PortConn>)
  {
    && Coherent(net)
    && (forall v | v in todo :: v in net.wires)
    && (forall v | v in net.wires :: v !in wires)
    && (forall q | q in Members(net) :: q !in ports)
    && (forall v | v in net.wires && v !in todo :: forall u | u in wires :: !Touch(u, v))
    && (forall v | v in net.wires && v !in todo :: forall q | q in ports :: !OnWire(v, PortPosition(q)))
    && (forall q | q in Members(net) :: exists u | u in net.wires :: OnWire(u, PortPosition(q)))
  }

  /** What the loop over taken wires promises: `net` grows by wires and
      ports from the pools, and nothing left in them touches the grown net
      or lies on it. */
  ghost predicate Collected(net: LinkWires, wires: seq<Wire>, ports: seq<PortConn>, r: (LinkWires, seq<Wire>, seq<PortConn>))
  {
    && |r.1| <= |wires| && (forall v | v in r.1 :: v in wires)
    && (forall v :: v in r.0.wires <==> v in net.wires || (v in wires && v !in r.1))
    && (forall v | v in r.1 :: forall u | u in r.0.wires :: !Touch(v, u))
    && (forall q | q in r.2 :: q in ports)
    && (forall q :: q in Members(r.0) <==> q in Members(net) || (q in ports && q !in r.2))
    && (forall q | q in r.2 :: forall u | u in r.0.wires :: !OnWire(u, PortPosition(q)))
    && (forall q | q in Members(r.0) :: exists u | u in r.0.wires :: OnWire(u, PortPosition(q)))
    && Coherent(r.0)
  }

  /** `findAttachedConnections`: takes from the pool `wires` every wire
      touching `w` and, through each of them in turn, everything attached
      to those; then takes from the port pool every port on a grid point of
      `w`. The result is the collected net (without `w` itself) and what is
      left of both pools. A wire already on the net reaches nothing, since
      it has left the pool. */
  function Find(w: Wire, wires: seq<Wire>, ports: seq<PortConn>): (r: (LinkWires, seq<Wire>, seq<PortConn>))
    ensures Gathered(w, wires, ports, r)
    decreases |wires|, 0
  {
    var (touching, rest) := Split(wires, v => Touch(w, v));
    var mid := (
      if touching == [] then (Empty, rest, ports)
      else
        FindStart(w, wires, touching, rest, ports);
        FindAll(AddWires(Empty, touching), touching, rest, ports));
    var (mine, others) := Split(mid.2, q => OnWire(w, PortPosition(q)));
    FindEnd(w, wires, ports, touching, rest, mid, mine, others);
    (AddPorts(mid.0, mine), mid.1, others)
  }

  lemma FindStart(w: Wire, wires: seq<Wire>, touching: seq<Wire>, rest: seq<Wire>, ports: seq<PortConn>)
    requires forall v :: v in touching <==> v in wires && Touch(w, v)
    requires forall v :: v in rest <==> v in wires && !Touch(w, v)
    ensures Pending(AddWires(Empty, touching), touching, rest, ports)
  {
  }

  lemma FindEnd(w: Wire, wires: seq<Wire>, ports: seq<PortConn>, touching: seq<Wire>, rest: seq<Wire>,
                mid: (LinkWires, seq<Wire>, seq<PortConn>), mine: seq<PortConn>, others: seq<PortConn>)
    requires forall v :: v in touching <==> v in wires && Touch(w, v)
    requires forall v :: v in rest <==> v in wires && !Touch(w, v)
    requires |touching| + |rest| == |wires|
    requires Collected(AddWires(Empty, touching), rest, ports, mid)
    requires forall q :: q in mine <==> q in mid.2 && OnWire(w, PortPosition(q))
    requires forall q :: q in others <==> q in mid.2 && !OnWire(w, PortPosition(q))
    ensures Gathered(w, wires, ports, (AddPorts(mid.0, mine), mid.1, others))
  {
  }

  /** The loop of `findAttachedConnections` over the wires it took: each
      one's own attachments are merged in. */
  function FindAll(net: LinkWires, todo: seq<Wire>, wires: seq<Wire>, ports: seq<PortConn>): (r: (LinkWires, seq<Wire>, seq<PortConn>))
    requires Pending(net, todo, wires, ports)
    ensures Collected(net, wires, ports, r)
    decreases |wires|, |todo| + 1
  {
    if todo == [] then (net, wires, ports)
    else
      var sub := Find(todo[0], wires, ports);
      PendingStep(net, todo, wires, ports, sub);
      var r := FindAll(Absorb(net, sub.0), todo[1..], sub.1, sub.2);
      CollectedStep(net, todo, wires, ports, sub, r);
      // `merge` of a net made for this call: never the same object, so the
      // check for merging a net with itself does not apply.
      r
  }

  lemma PendingStep(net: LinkWires, todo: seq<Wire>, wires: seq<Wire>, ports: seq<PortConn>, sub: (LinkWires, seq<Wire>, seq<PortConn>))
    requires Pending(net, todo, wires, ports) && todo != []
    requires Gathered(todo[0], wires, ports, sub)
    ensures Pending(Absorb(net, sub.0), todo[1..], sub.1, sub.2)
  {
    var n := Absorb(net, sub.0);
    forall v | v in n.wires && v !in todo[1..]
      ensures forall u | u in sub.1 :: !Touch(u, v)
    {
      if v !in sub.0.wires && v != todo[0] {
        assert v in net.wires && v !in todo;
      }
    }
    forall q | q in Members(n)
      ensures exists u | u in n.wires :: OnWire(u, PortPosition(q))
    {
      if q in Members(net) {
        var u :| u in net.wires && OnWire(u, PortPosition(q));
        assert u in n.wires;
      } else if !OnWire(todo[0], PortPosition(q)) {
        var u :| u in sub.0.wires && OnWire(u, PortPosition(q));
        assert u in n.wires;
      } else {
        assert todo[0] in n.wires;
      }
    }
  }

  lemma CollectedStep(net: LinkWires, todo: seq<Wire>, wires: seq<Wire>, ports: seq<PortConn>,
                      sub: (LinkWires, seq<Wire>, seq<PortConn>), r: (LinkWires, seq<Wire>, seq<PortConn>))
    requires Pending(net, todo, wires, ports) && todo != []
    requires Gathered(todo[0], wires, ports, sub)
    requires Collected(Absorb(net, sub.0), sub.1, sub.2, r)
    ensures Collected(net, wires, ports, r)
  {
  }

  /** Some net of `gs` has the wire. */
  predicate Wired(gs: seq<LinkWires>, v: Wire)
  {
    exists i | 0 <= i < |gs| :: v in gs[i].wires
  }

  /** Some net of `gs` has the port, valid or not. */
  predicate Ported(gs: seq<LinkWires>, q: PortConn)
  {
    exists i | 0 <= i < |gs| :: q in Members(gs[i])
  }

  /** Different nets share no wire and no port, and no wire of one touches
      a wire of another. */
  predicate Separate(gs: seq<LinkWires>)
  {
    && (forall i, j, v | 0 <= i < j < |gs| && v in gs[i].wires :: v !in gs[j].wires)
    && (forall i, j, q | 0 <= i < j < |gs| && q in Members(gs[i]) :: q !in Members(gs[j]))
    && (forall i, j, v, u | 0 <= i < j < |gs| && v in gs[i].wires && u in gs[j].wires :: !Touch(v, u))
  }

  /** Every port of the net lies on one of its wires. */
  predicate OnItsWires(g: LinkWires)
  {
    forall q | q in Members(g) :: exists u | u in g.wires :: OnWire(u, PortPosition(q))
  }

  /** Nets built around wires: coherent, with a wire, ports on their wires. */
  predicate Formed(gs: seq<LinkWires>)
  {
    forall i | 0 <= i < |gs| :: Coherent(gs[i]) && gs[i].wires != [] && OnItsWires(gs[i])
  }

  /** The nets hold exactly the given wires. */
  ghost predicate Covers(gs: seq<LinkWires>, wires: seq<Wire>)
  {
    forall v :: Wired(gs, v) <==> v in wires
  }

  /** The nets took from `ports` all but `left`, and what is left lies on
      none of their wires. */
  ghost predicate Claimed(gs: seq<LinkWires>, ports: seq<PortConn>, left: seq<PortConn>)
  {
    && (forall q | q in left :: q in ports)
    && (forall q :: Ported(gs, q) <==> q in ports && q !in left)
    && (forall q, v | q in left && Wired(gs, v) :: !OnWire(v, PortPosition(q)))
  }

  /** The first loop of `splitWires`: while wires remain, the next one and
      everything attached to it become a new net. Returns the nets and the
      ports no net took. */
  function Groups(wires: seq<Wire>, ports: seq<PortConn>): (r: (seq<LinkWires>, seq<PortConn>))
    ensures Formed(r.0) && Covers(r.0, wires) && Separate(r.0) && Claimed(r.0, ports, r.1)
    decreases |wires|
  {
    if wires == [] then ([], ports)
    else
      var w := wires[0];
      var f := Find(w, Delete(wires, w), ports);
      var g := AddWire(f.0, w);
      var more := Groups(f.1, f.2);
      StepFormed(w, Delete(wires, w), ports, f, more.0);
      StepCovers(wires, ports, f, more.0);
      StepClaimed(w, Delete(wires, w), ports, f, more);
      StepSeparate(w, Delete(wires, w), ports, f, more.0);
      ([g] + more.0, more.1)
  }

  lemma StepFormed(w: Wire, wires: seq<Wire>, ports: seq<PortConn>, f: (LinkWires, seq<Wire>, seq<PortConn>), more: seq<LinkWires>)
    requires Gathered(w, wires, ports, f) && Formed(more)
    ensures Formed([AddWire(f.0, w)] + more)
  {
    var g := AddWire(f.0, w);
    forall q | q in Members(g)
      ensures exists u | u in g.wires :: OnWire(u, PortPosition(q))
    {
      if !OnWire(w, PortPosition(q)) {
        var u :| u in f.0.wires && OnWire(u, PortPosition(q));
        assert u in g.wires;
      }
    }
    assert Formed([g]);
  }

  lemma StepCovers(wires: seq<Wire>, ports: seq<PortConn>, f: (LinkWires, seq<Wire>, seq<PortConn>), more: seq<LinkWires>)
    requires wires != []
    requires Gathered(wires[0], Delete(wires, wires[0]), ports, f)
    requires Covers(more, f.1)
    ensures Covers([AddWire(f.0, wires[0])] + more, wires)
  {
    var gs := [AddWire(f.0, wires[0])] + more;
    forall v
      ensures Wired(gs, v) <==> v in wires
    {
      if Wired(gs, v) {
        var i :| 0 <= i < |gs| && v in gs[i].wires;
        if i > 0 {
          assert v in more[i - 1].wires;
        }
      }
      if v in wires {
        if v in gs[0].wires {
        } else {
          assert Wired(more, v);
          var i :| 0 <= i < |more| && v in more[i].wires;
          assert v in gs[i + 1].wires;
        }
      }
    }
  }

  lemma StepClaimed(w: Wire, wires: seq<Wire>, ports: seq<PortConn>, f: (LinkWires, seq<Wire>, seq<PortConn>), more: (seq<LinkWires>, seq<PortConn>))
    requires Gathered(w, wires, ports, f)
    requires Covers(more.0, f.1) && Claimed(more.0, f.2, more.1)
    ensures Claimed([AddWire(f.0, w)] + more.0, ports, more.1)
  {
    var gs := [AddWire(f.0, w)] + more.0;
    forall q
      ensures Ported(gs, q) <==> q in ports && q !in more.1
    {
      if Ported(gs, q) {
        var i :| 0 <= i < |gs| && q in Members(gs[i]);
        if i > 0 {
          assert q in Members(more.0[i - 1]);
        }
      }
      if q in ports && q !in more.1 {
        if q in Members(gs[0]) {
        } else {
          assert Ported(more.0, q);
          var i :| 0 <= i < |more.0| && q in Members(more.0[i]);
          assert q in Members(gs[i + 1]);
        }
      }
    }
    forall q, v | q in more.1 && Wired(gs, v)
      ensures !OnWire(v, PortPosition(q))
    {
      var i :| 0 <= i < |gs| && v in gs[i].wires;
      if i > 0 {
        assert Wired(more.0, v);
      }
    }
  }

  lemma StepSeparate(w: Wire, wires: seq<Wire>, ports: seq<PortConn>, f: (LinkWires, seq<Wire>, seq<PortConn>), more: seq<LinkWires>)
    requires w !in wires
    requires Gathered(w, wires, ports, f)
    requires Covers(more, f.1) && Separate(more)
    requires forall q :: Ported(more, q) ==> q in f.2
    ensures Separate([AddWire(f.0, w)] + more)
  {
    var gs := [AddWire(f.0, w)] + more;
    forall i, j, v | 0 <= i < j < |gs| && v in gs[i].wires
      ensures v !in gs[j].wires
    {
      if i == 0 && v in gs[j].wires {
        assert Wired(more, v) by { assert v in more[j - 1].wires; }
      }
    }
    forall i, j, q | 0 <= i < j < |gs| && q in Members(gs[i])
      ensures q !in Members(gs[j])
    {
      if i == 0 {
        assert q !in f.2;
        assert gs[j] == more[j - 1];
      }
    }
    forall i, j, v, u | 0 <= i < j < |gs| && v in gs[i].wires && u in gs[j].wires
      ensures !Touch(v, u)
    {
      if i == 0 {
        assert Wired(more, u) by { assert u in more[j - 1].wires; }
      }
    }
  }

  /** Nets built around a grid point: coherent, without wires, with at
      least two ports, all at one point. */
  predicate Spots(gs: seq<LinkWires>)
  {
    forall i | 0 <= i < |gs| ::
      && Coherent(gs[i]) && !IsEmpty(gs[i]) && gs[i].wires == []
      && forall q, q' | q in Members(gs[i]) && q' in Members(gs[i]) :: PortPosition(q) == PortPosition(q')
  }

  /** Every port of `ports` that shares its grid point with another is in
      some net. */
  predicate Paired(gs: seq<LinkWires>, ports: seq<PortConn>)
  {
    forall q, q' | q in ports && q' in ports && q != q' && PortPosition(q) == PortPosition(q') :: Ported(gs, q)
  }

  /** The second loop of `splitWires`: each remaining port, with every
      other remaining port at the same grid point, forms a new net; a net
      of a single port is cleared and dropped. */
  function ByPosition(ports: seq<PortConn>): (r: seq<LinkWires>)
    ensures Spots(r) && Separate(r) && Paired(r, ports)
    ensures forall q :: Ported(r, q) ==> q in ports
    decreases |ports|
  {
    if ports == [] then []
    else
      var p := ports[0];
      var (same, others) := Split(Delete(ports, p), q => PortPosition(q) == PortPosition(p));
      var g := AddPorts(AddPort(Empty, p), same);
      var more := ByPosition(others);
      assert forall q :: q in Members(g) <==> q == p || q in same;
      if IsEmpty(g) then
        SpotDropped(ports, same, others, g, more);
        more
      else
        SpotKept(ports, same, others, g, more);
        [g] + more
  }

  lemma SpotDropped(ports: seq<PortConn>, same: seq<PortConn>, others: seq<PortConn>, g: LinkWires, more: seq<LinkWires>)
    requires ports != []
    requires forall q :: q in same <==> q in ports && q != ports[0] && PortPosition(q) == PortPosition(ports[0])
    requires forall q :: q in others <==> q in ports && q != ports[0] && PortPosition(q) != PortPosition(ports[0])
    requires Coherent(g) && IsEmpty(g)
    requires forall q :: q in Members(g) <==> q == ports[0] || q in same
    requires forall q :: Ported(more, q) ==> q in others
    requires Paired(more, others)
    ensures Paired(more, ports)
    ensures forall q :: Ported(more, q) ==> q in ports
  {
    if same != [] {
      assert same[0] in same;
      TwoPortsNotEmpty(g, ports[0], same[0]);
    }
  }

  lemma SpotKept(ports: seq<PortConn>, same: seq<PortConn>, others: seq<PortConn>, g: LinkWires, more: seq<LinkWires>)
    requires ports != []
    requires forall q :: q in same <==> q in ports && q != ports[0] && PortPosition(q) == PortPosition(ports[0])
    requires forall q :: q in others <==> q in ports && q != ports[0] && PortPosition(q) != PortPosition(ports[0])
    requires Coherent(g) && !IsEmpty(g) && g.wires == []
    requires forall q :: q in Members(g) <==> q == ports[0] || q in same
    requires Spots(more) && Separate(more) && Paired(more, others)
    requires forall q :: Ported(more, q) ==> q in others
    ensures Spots([g] + more) && Separate([g] + more) && Paired([g] + more, ports)
    ensures forall q :: Ported([g] + more, q) ==> q in ports
  {
    var r := [g] + more;
    assert Spots([g]);
    forall q | Ported(r, q)
      ensures q in ports
    {
      var i :| 0 <= i < |r| && q in Members(r[i]);
      if i > 0 {
        assert Ported(more, q) by { assert q in Members(more[i - 1]); }
      }
    }
    forall i, j, q | 0 <= i < j < |r| && q in Members(r[i])
      ensures q !in Members(r[j])
    {
      if i == 0 {
        assert r[j] == more[j - 1];
        assert q !in others;
      }
    }
    forall q, q' | q in ports && q' in ports && q != q' && PortPosition(q) == PortPosition(q')
      ensures Ported(r, q)
    {
      if q in Members(g) {
        assert q in Members(r[0]);
      } else {
        assert Ported(more, q);
        var i :| 0 <= i < |more| && q in Members(more[i]);
        assert q in Members(r[i + 1]);
      }
    }
  }

  /** `splitWires`: the wires in `toRemove` leave the net; the rest fall
      into nets of wires attached end to end, each with the ports on its
      wires; ports on no remaining wire group by grid point, and a port
      alone at its point belongs to no net. Every resulting net is
      coherent and not empty, and the nets are apart: no shared wire or
      port, no wire touching another net's. */
  function SplitWires(l: LinkWires, toRemove: set<Wire>): (r: seq<LinkWires>)
    ensures forall i | 0 <= i < |r| :: Coherent(r[i]) && !IsEmpty(r[i])
    ensures forall v :: Wired(r, v) <==> v in l.wires && v !in toRemove
    ensures Separate(r)
    ensures forall q :: Ported(r, q) ==> q in Members(l)
    ensures forall i, q | 0 <= i < |r| && q in Members(r[i]) ::
      || (exists u | u in r[i].wires :: OnWire(u, PortPosition(q)))
      || (r[i].wires == [] && forall q' | q' in Members(r[i]) :: PortPosition(q') == PortPosition(q))
    ensures forall q | q in Members(l) && !Ported(r, q) ::
      && (forall v | v in l.wires && v !in toRemove :: !OnWire(v, PortPosition(q)))
      && (forall q' | q' in Members(l) && PortPosition(q') == PortPosition(q) :: q' == q)
  {
    var (_, kept) := Split(l.wires, v => v in toRemove);
    var (gs, left) := Groups(kept, Members(l));
    var bs := ByPosition(left);
    SplitJoin(Members(l), kept, gs, left, bs);
    gs + bs
  }

  /** After `splitWires`, a port on a remaining wire is in a net that has
      a wire it lies on. That net need not be the net of that very wire:
      a wire ending in the middle of another is not attached to it, and the
      first net to reach a port there takes it out of the pool. */
  lemma SplitWiresSeats(l: LinkWires, toRemove: set<Wire>)
    ensures var r := SplitWires(l, toRemove);
      forall q, v | q in Members(l) && v in l.wires && v !in toRemove && OnWire(v, PortPosition(q)) ::
        exists i | 0 <= i < |r| :: q in Members(r[i]) && exists u | u in r[i].wires :: OnWire(u, PortPosition(q))
  {
    var (_, kept) := Split(l.wires, v => v in toRemove);
    var (gs, left) := Groups(kept, Members(l));
    var bs := ByPosition(left);
    assert SplitWires(l, toRemove) == gs + bs;
    ClaimedSeats(Members(l), kept, gs, left, bs);
  }

  /** A port on one of the nets' wires was taken by one of those nets, and
      lies on one of that net's own wires. */
  lemma ClaimedSeats(ports: seq<PortConn>, kept: seq<Wire>, gs: seq<LinkWires>, left: seq<PortConn>, bs: seq<LinkWires>)
    requires Formed(gs) && Covers(gs, kept) && Claimed(gs, ports, left)
    ensures var r := gs + bs;
      forall q, v | q in ports && v in kept && OnWire(v, PortPosition(q)) ::
        exists i | 0 <= i < |r| :: q in Members(r[i]) && exists u | u in r[i].wires :: OnWire(u, PortPosition(q))
  {
    var r := gs + bs;
    forall q, v | q in ports && v in kept && OnWire(v, PortPosition(q))
      ensures exists i | 0 <= i < |r| :: q in Members(r[i]) && exists u | u in r[i].wires :: OnWire(u, PortPosition(q))
    {
      assert Wired(gs, v);
      assert q !in left;
      var i :| 0 <= i < |gs| && q in Members(gs[i]);
      assert OnItsWires(gs[i]);
      assert r[i] == gs[i];
    }
  }

  lemma SplitJoin(ports: seq<PortConn>, kept: seq<Wire>, gs: seq<LinkWires>, left: seq<PortConn>, bs: seq<LinkWires>)
    requires Formed(gs) && Covers(gs, kept) && Separate(gs) && Claimed(gs, ports, left)
    requires Spots(bs) && Separate(bs) && Paired(bs, left)
    requires forall q :: Ported(bs, q) ==> q in left
    ensures var r := gs + bs;
      && (forall i | 0 <= i < |r| :: Coherent(r[i]) && !IsEmpty(r[i]))
      && Covers(r, kept)
      && Separate(r)
      && (forall q :: Ported(r, q) ==> q in ports)
      && (forall i, q | 0 <= i < |r| && q in Members(r[i]) ::
        || (exists u | u in r[i].wires :: OnWire(u, PortPosition(q)))
        || (r[i].wires == [] && forall q' | q' in Members(r[i]) :: PortPosition(q') == PortPosition(q)))
      && (forall q | q in ports && !Ported(r, q) ::
        && (forall v | v in kept :: !OnWire(v, PortPosition(q)))
        && (forall q' | q' in ports && PortPosition(q') == PortPosition(q) :: q' == q))
  {
    var r := gs + bs;
    forall i | 0 <= i < |r|
      ensures Coherent(r[i]) && !IsEmpty(r[i])
    {
      if i < |gs| {
        assert r[i] == gs[i];
      } else {
        assert r[i] == bs[i - |gs|];
      }
    }
    JoinWired(gs, bs, kept);
    JoinPorted(gs, bs);
    JoinSeparate(gs, bs, ports, left);
    forall i, q | 0 <= i < |r| && q in Members(r[i])
      ensures || (exists u | u in r[i].wires :: OnWire(u, PortPosition(q)))
              || (r[i].wires == [] && forall q' | q' in Members(r[i]) :: PortPosition(q') == PortPosition(q))
    {
      if i < |gs| {
        assert r[i] == gs[i];
        assert OnItsWires(gs[i]);
      } else {
        assert r[i] == bs[i - |gs|];
      }
    }
    forall q' | q' in ports && q' !in left
      ensures exists v | v in kept :: OnWire(v, PortPosition(q'))
    {
      var i :| 0 <= i < |gs| && q' in Members(gs[i]);
      assert OnItsWires(gs[i]);
      var u :| u in gs[i].wires && OnWire(u, PortPosition(q'));
      assert Wired(gs, u);
    }
    forall q | q in ports && !Ported(r, q)
      ensures forall v | v in kept :: !OnWire(v, PortPosition(q))
      ensures forall q' | q' in ports && PortPosition(q') == PortPosition(q) :: q' == q
    {
      assert !Ported(gs, q) && !Ported(bs, q);
      assert q in left;
      forall v | v in kept
        ensures !OnWire(v, PortPosition(q))
      {
        assert Wired(gs, v);
      }
      assert forall q' | q' in ports && PortPosition(q') == PortPosition(q) :: q' == q;
    }
  }

  lemma JoinWired(gs: seq<LinkWires>, bs: seq<LinkWires>, kept: seq<Wire>)
    requires Covers(gs, kept) && forall i | 0 <= i < |bs| :: bs[i].wires == []
    ensures Covers(gs + bs, kept)
  {
    var r := gs + bs;
    forall v
      ensures Wired(r, v) <==> Wired(gs, v)
    {
      if Wired(r, v) {
        var i :| 0 <= i < |r| && v in r[i].wires;
        assert v in gs[i].wires;
      }
      if Wired(gs, v) {
        var i :| 0 <= i < |gs| && v in gs[i].wires;
        assert v in r[i].wires;
      }
    }
  }

  lemma JoinPorted(gs: seq<LinkWires>, bs: seq<LinkWires>)
    ensures forall q :: Ported(gs + bs, q) <==> Ported(gs, q) || Ported(bs, q)
  {
    var r := gs + bs;
    forall q
      ensures Ported(r, q) <==> Ported(gs, q) || Ported(bs, q)
    {
      if Ported(r, q) {
        var i :| 0 <= i < |r| && q in Members(r[i]);
        if i >= |gs| {
          assert q in Members(bs[i - |gs|]);
        } else {
          assert q in Members(gs[i]);
        }
      }
      if Ported(gs, q) {
        var i :| 0 <= i < |gs| && q in Members(gs[i]);
        assert q in Members(r[i]);
      }
      if Ported(bs, q) {
        var i :| 0 <= i < |bs| && q in Members(bs[i]);
        assert q in Members(r[i + |gs|]);
      }
    }
  }

  lemma JoinSeparate(gs: seq<LinkWires>, bs: seq<LinkWires>, ports: seq<PortConn>, left: seq<PortConn>)
    requires Separate(gs) && Separate(bs) && Claimed(gs, ports, left)
    requires forall i | 0 <= i < |bs| :: bs[i].wires == []
    requires forall q :: Ported(bs, q) ==> q in left
    ensures Separate(gs + bs)
  {
    var r := gs + bs;
    assert forall k | |gs| <= k < |r| :: r[k].wires == [] by {
      forall k | |gs| <= k < |r|
        ensures r[k].wires == []
      {
        assert r[k] == bs[k - |gs|];
      }
    }
    forall i, j, v | 0 <= i < j < |r| && v in r[i].wires
      ensures v !in r[j].wires
    {
      if j >= |gs| {
        assert r[j] == bs[j - |gs|];
      } else {
        assert r[i] == gs[i] && r[j] == gs[j];
      }
    }
    forall i, j, q | 0 <= i < j < |r| && q in Members(r[i])
      ensures q !in Members(r[j])
    {
      if i >= |gs| {
        assert r[i] == bs[i - |gs|] && r[j] == bs[j - |gs|];
      } else if j >= |gs| {
        assert Ported(gs, q) by { assert q in Members(gs[i]); }
        assert !Ported(bs, q);
        assert r[j] == bs[j - |gs|];
      } else {
        assert r[i] == gs[i] && r[j] == gs[j];
      }
    }
    forall i, j, v, u | 0 <= i < j < |r| && v in r[i].wires && u in r[j].wires
      ensures !Touch(v, u)
    {
      if j < |gs| {
        assert r[i] == gs[i] && r[j] == gs[j];
      }
    }
  }
}
