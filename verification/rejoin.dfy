/** `rejoinWires` and its switch `rejoinWiresEnabled` (CircuitBoard.kt):
    each wire of each net, in turn, absorbs the one same-orientation wire
    meeting it at either end, when that end holds exactly two
    connections. Wires the loop appends are not visited, since the index
    range of the loop is fixed when it starts. */
module Rejoining {
  import opened Wrappers
  import opened GuiElements
  import opened Wires
  import opened Connections
  import opened Links
  import opened Boards
  import Splices

  /** Every wire connection in the index is one of the connections of a
      listed wire, and the index files each connection under its point. */
  ghost predicate IndexSound(b: Board)
  {
    && IndexOk(b.index)
    && forall p: Point, c | Filed(b.index, p, c) && c.WireConnection? ::
      c in WireConnections(c.wire) && Listed(b.links, c.wire)
  }

  /** No two listed wires share a unit step. */
  ghost predicate NoOverlap(b: Board)
  {
    forall v, u | Listed(b.links, v) && Listed(b.links, u) && v != u :: !Overlaps(v, u)
  }

  /** What the editing operations keep true of a board and the rejoining
      relies on: a sound index, no overlapping wires, and nets that share
      no wire, no port and no wire end. */
  ghost predicate Sane(b: Board)
  {
    IndexSound(b) && NoOverlap(b) && Separate(b.links)
  }

  /** Some listed wire of the orientation covers the unit step from `p`:
      what is drawn on the board. */
  ghost predicate Drawn(b: Board, p: Point, horizontal: bool)
  {
    exists v | Listed(b.links, v) :: v.horizontal == horizontal && HasStep(v, p)
  }

  /** The wires of the other same-orientation wire connections in a bucket. */
  function Neighbours(cs: seq<Connection>, own: Connection, horizontal: bool): (r: seq<Wire>)
    ensures forall i | 0 <= i < |r| :: exists c | c in cs ::
      c != own && c.WireConnection? && c.wire == r[i] && r[i].horizontal == horizontal
  {
    if cs == [] then []
    else
      var rest := Neighbours(cs[1..], own, horizontal);
      var c := cs[0];
      var take := c != own && c.WireConnection? && c.wire.horizontal == horizontal;
      var r := if take then [c.wire] + rest else rest;
      forall i | 0 <= i < |r|
        ensures exists d | d in cs :: d != own && d.WireConnection? && d.wire == r[i] && r[i].horizontal == horizontal
      {
        if take && i == 0 {
          assert cs[0] in cs;
        } else {
          var k := if take then i - 1 else i;
          assert r[i] == rest[k];
          var d :| d in cs[1..] && d != own && d.WireConnection? && d.wire == rest[k] && rest[k].horizontal == horizontal;
          assert d in cs;
        }
      }
      r
  }

  /** The wire `rejoinWires` fuses at an end: the one same-orientation wire
      of another connection, when the end holds exactly two. */
  function Partner(m: Index, at: Point, own: Connection, horizontal: bool): (r: Option<Wire>)
    ensures r.Some? ==> exists c :: Filed(m, at, c) && c != own && c.WireConnection? && c.wire == r.value
    ensures r.Some? ==> r.value.horizontal == horizontal
  {
    var cs := GetConnections(m, at.x, at.y);
    if |cs| != 2 then None
    else
      var ws := Neighbours(cs, own, horizontal);
      if |ws| == 1 then Some(ws[0]) else None
  }

  function Len(o: Option<Wire>): nat
  {
    if o.Some? then o.value.length else 0
  }

  function Opt(o: Option<Wire>): seq<Wire>
  {
    if o.Some? then [o.value] else []
  }

  /** Taking the partner off, if there is one. */
  function TakeOpt(b: Board, o: Option<Wire>): (r: Board)
    ensures Frame(b, r) && |r.links| == |b.links|
  {
    if o.Some? then TakeWire(b, o.value) else b
  }

  /** The wire replacing `w`: the origin moves to the start partner's when
      that is smaller, and the lengths add up. */
  function Fused(w: Wire, s: Option<Wire>, e: Option<Wire>): (f: Wire)
    ensures f.horizontal == w.horizontal && f.length == w.length + Len(s) + Len(e)
  {
    Wire(
      if s.Some? then Splices.Min(w.x, s.value.x) else w.x,
      if s.Some? then Splices.Min(w.y, s.value.y) else w.y,
      w.length + Len(s) + Len(e),
      w.horizontal)
  }

  /** The loop body for wire `w` of net `k`: the board after it and the
      wires it took off (`removed`). */
  function RejoinWire(b: Board, k: nat, w: Wire): (r: (Board, seq<Wire>))
    requires k < |b.links|
    ensures Frame(b, r.0) && |r.0.links| == |b.links|
  {
    var s := Partner(b.index, Start(w), WireConnection(w, Point(0, 0)), w.horizontal);
    var b1 := TakeOpt(b, s);
    var e := Partner(b1.index, End(w), WireConnection(w, Along(Point(0, 0), w.horizontal, w.length)), w.horizontal);
    var b2 := TakeOpt(b1, e);
    var f := Fused(w, s, e);
    if f.length == w.length then (b2, Opt(s) + Opt(e))
    else (PutWire(TakeWire(b2, w), k, f), Opt(s) + Opt(e) + [w])
  }

  /** The loop over the wires `ws` of net `k` as they were when the loop
      reached the net, skipping those already taken off. */
  function RejoinNet(b: Board, k: nat, ws: seq<Wire>, i: nat, removed: seq<Wire>): (r: Board)
    requires k < |b.links|
    ensures Frame(b, r) && |r.links| == |b.links|
    decreases |ws| - i
  {
    if i >= |ws| then b
    else if ws[i] in removed then RejoinNet(b, k, ws, i + 1, removed)
    else
      var (b1, gone) := RejoinWire(b, k, ws[i]);
      RejoinNet(b1, k, ws, i + 1, removed + gone)
  }

  /** The loop over the nets from the `k`th on. */
  function RejoinFrom(b: Board, k: nat): (r: Board)
    ensures Frame(b, r) && |r.links| == |b.links|
    decreases |b.links| - k
  {
    if k >= |b.links| then b
    else RejoinFrom(RejoinNet(b, k, b.links[k].wires, 0, []), k + 1)
  }

  /** `rejoinWires`: nothing while the switch is off. */
  function RejoinWires(b: Board): (r: Board)
    ensures !b.rejoin ==> r == b
    ensures Frame(b, r) && |r.links| == |b.links|
  {
    if !b.rejoin then b else RejoinFrom(b, 0)
  }

  /** The setter of `rejoinWiresEnabled`: it stores the switch and runs
      `rejoinWires` at once, so turning it off changes nothing else and
      turning it on rejoins the board. */
  function SetRejoinEnabled(b: Board, enabled: bool): (r: Board)
    ensures r.rejoin == enabled
    ensures !enabled ==> r == b.(rejoin := false)
    ensures enabled ==> r == RejoinFrom(b.(rejoin := true), 0)
  {
    RejoinWires(b.(rejoin := enabled))
  }

  /** With nets that share no wire, taking a wire off removes it from the
      board and nothing else. */
  lemma TakeWireListed(b: Board, w: Wire)
    requires Separate(b.links)
    ensures forall v :: Listed(TakeWire(b, w).links, v) <==> Listed(b.links, v) && v != w
  {
    var r := TakeWire(b, w);
    forall j | 0 <= j < |r.links|
      ensures w !in r.links[j].wires
    {
      match WireOwner(b.links, w)
      case None =>
        assert !InNet(b.links[j], WireConnection(w, Point(0, 0)));
      case Some(k) =>
        if j != k {
          assert w in b.links[k].wires;
        }
    }
    forall v
      ensures Listed(r.links, v) <==> Listed(b.links, v) && v != w
    {
      if Listed(b.links, v) && v != w {
        var j :| 0 <= j < |b.links| && v in b.links[j].wires;
        assert v in r.links[j].wires;
      }
    }
  }

  /** Taking a wire off keeps the nets separate and takes nothing else. */
  lemma TakeWireSeparate(b: Board, w: Wire)
    requires Separate(b.links)
    ensures Separate(TakeWire(b, w).links)
    ensures forall j, v | 0 <= j < |b.links| && v in TakeWire(b, w).links[j].wires :: v in b.links[j].wires
    ensures forall j | 0 <= j < |b.links| :: Members(TakeWire(b, w).links[j]) == Members(b.links[j])
  {
    var r := TakeWire(b, w);
    assert forall j | 0 <= j < |b.links| :: Members(r.links[j]) == Members(b.links[j]);
  }

  /** Taking a wire off a sane board leaves it sane, with that wire and its
      connections gone. */
  lemma TakeWireSane(b: Board, w: Wire)
    requires Sane(b)
    ensures Sane(TakeWire(b, w))
    ensures forall v :: Listed(TakeWire(b, w).links, v) <==> Listed(b.links, v) && v != w
  {
    var r := TakeWire(b, w);
    TakeWireListed(b, w);
    TakeWireSeparate(b, w);
    forall p: Point, c | Filed(r.index, p, c) && c.WireConnection?
      ensures c in WireConnections(c.wire) && Listed(r.links, c.wire)
    {
      assert Filed(b.index, p, c) && c !in WireConnections(w);
    }
  }

  /** Where the loop finds a partner at the start of a listed wire, the
      partner is another wire ending there. */
  lemma StartPartner(b: Board, w: Wire, s: Wire)
    requires Sane(b) && Listed(b.links, w)
    requires Partner(b.index, Start(w), WireConnection(w, Point(0, 0)), w.horizontal) == Some(s)
    ensures s != w && End(s) == Start(w) && s.horizontal == w.horizontal && Listed(b.links, s)
  {
    var c :| Filed(b.index, Start(w), c) && c != WireConnection(w, Point(0, 0)) && c.WireConnection? && c.wire == s;
    var cs := WireConnections(s);
    var i :| 0 <= i < |cs| && cs[i] == c;
    assert Position(c) == Start(w) == Points(s)[i];
    assert s != w;
    if i < s.length {
      assert HasStep(s, Start(w)) by {
        assert OnWire(s, Points(s)[i]) by { PointsOnWire(s, Points(s)[i]); }
        assert Along(Start(w), s.horizontal, 1) == Points(s)[i + 1];
        assert OnWire(s, Points(s)[i + 1]) by { PointsOnWire(s, Points(s)[i + 1]); }
      }
      assert HasStep(w, Start(w));
      OverlapsSharedStep(s, w);
      assert false;
    }
    PointsOnWire(s, Start(w));
  }

  /** Where the loop finds a partner at the end of a listed wire, the
      partner is another wire starting there. */
  lemma EndPartner(b: Board, w: Wire, e: Wire)
    requires Sane(b) && Listed(b.links, w)
    requires Partner(b.index, End(w), WireConnection(w, Along(Point(0, 0), w.horizontal, w.length)), w.horizontal) == Some(e)
    ensures e != w && Start(e) == End(w) && e.horizontal == w.horizontal && Listed(b.links, e)
  {
    var own := WireConnection(w, Along(Point(0, 0), w.horizontal, w.length));
    var c :| Filed(b.index, End(w), c) && c != own && c.WireConnection? && c.wire == e;
    var cs := WireConnections(e);
    var i :| 0 <= i < |cs| && cs[i] == c;
    assert Position(c) == End(w) == Points(e)[i];
    assert e != w;
    if i > 0 {
      var q := Along(End(w), w.horizontal, -1);
      assert HasStep(e, q) by {
        assert Points(e)[i - 1] == q;
        assert Along(q, e.horizontal, 1) == Points(e)[i];
        PointsOnWire(e, Points(e)[i - 1]);
        PointsOnWire(e, Points(e)[i]);
      }
      assert HasStep(w, q);
      OverlapsSharedStep(e, w);
      assert false;
    }
  }

  /** The fused wire covers exactly the steps of the wire and its
      partners. */
  lemma FusedSteps(w: Wire, s: Option<Wire>, e: Option<Wire>)
    requires s.Some? ==> s.value.horizontal == w.horizontal && End(s.value) == Start(w)
    requires e.Some? ==> e.value.horizontal == w.horizontal && Start(e.value) == End(w)
    ensures forall p :: HasStep(Fused(w, s, e), p) <==>
      HasStep(w, p) || (s.Some? && HasStep(s.value, p)) || (e.Some? && HasStep(e.value, p))
  {
    var f1 := Fused(w, s, None);
    if s.Some? {
      assert f1 == Splices.Fuse(w, s.value);
      Splices.FuseJoins(w, s.value);
    }
    assert End(f1) == End(w);
    if e.Some? {
      assert Fused(w, s, e) == Splices.Fuse(f1, e.value);
      Splices.FuseJoins(f1, e.value);
    }
  }

  /** `r` is `b` with the wires `gone` taken off: still sane, with no
      other wire taken, every net's ports kept and net `k`'s other wires
      kept. */
  ghost predicate Kept(b: Board, r: Board, gone: seq<Wire>, k: nat)
  {
    && Sane(r) && |r.links| == |b.links| && k < |b.links|
    && (forall v :: Listed(r.links, v) <==> Listed(b.links, v) && v !in gone)
    && (forall j, v | 0 <= j < |b.links| && v in r.links[j].wires :: v in b.links[j].wires)
    && (forall j | 0 <= j < |b.links| :: Members(r.links[j]) == Members(b.links[j]))
    && (forall v | v in b.links[k].wires && v !in gone :: v in r.links[k].wires)
  }

  lemma TakeOptKept(b: Board, o: Option<Wire>, k: nat)
    requires Sane(b) && k < |b.links|
    ensures Kept(b, TakeOpt(b, o), Opt(o), k)
  {
    if o.Some? {
      TakeWireSane(b, o.value);
      TakeWireSeparate(b, o.value);
    }
  }

  lemma KeptTrans(b: Board, b1: Board, b2: Board, g1: seq<Wire>, g2: seq<Wire>, k: nat)
    requires Kept(b, b1, g1, k) && Kept(b1, b2, g2, k)
    ensures Kept(b, b2, g1 + g2, k)
  {
  }

  /** One pass of the loop body keeps a sane board sane and draws the same
      steps, and every wire of the net it did not take off stays there. */
  lemma RejoinWireSane(b: Board, k: nat, w: Wire)
    requires Sane(b) && k < |b.links| && w in b.links[k].wires
    ensures Sane(RejoinWire(b, k, w).0)
    ensures forall p, h :: Drawn(RejoinWire(b, k, w).0, p, h) <==> Drawn(b, p, h)
    ensures forall v | v in b.links[k].wires && v !in RejoinWire(b, k, w).1 :: v in RejoinWire(b, k, w).0.links[k].wires
  {
    var s := Partner(b.index, Start(w), WireConnection(w, Point(0, 0)), w.horizontal);
    assert Listed(b.links, w);
    if s.Some? {
      StartPartner(b, w, s.value);
    }
    TakeOptKept(b, s, k);
    var b1 := TakeOpt(b, s);
    assert Listed(b1.links, w);
    var e := Partner(b1.index, End(w), WireConnection(w, Along(Point(0, 0), w.horizontal, w.length)), w.horizontal);
    if e.Some? {
      EndPartner(b1, w, e.value);
    }
    TakeOptKept(b1, e, k);
    var b2 := TakeOpt(b1, e);
    KeptTrans(b, b1, b2, Opt(s), Opt(e), k);
    var f := Fused(w, s, e);
    if f.length != w.length {
      assert Listed(b2.links, w);
      TakeOptKept(b2, Some(w), k);
      var b3 := TakeOpt(b2, Some(w));
      KeptTrans(b, b2, b3, Opt(s) + Opt(e), [w], k);
      FusedSteps(w, s, e);
      assert FuseSetup(b, k, w, s, e, b3);
      RejoinFusedSane(b, k, w, s, e, b3);
    }
  }

  /** What the last step of the loop body starts from: a sane board, the
      wire `w` of net `k`, its partners meeting its ends, the fused wire
      covering the three, and the board `b3` with the three taken off. */
  ghost predicate FuseSetup(b: Board, k: nat, w: Wire, s: Option<Wire>, e: Option<Wire>, b3: Board)
  {
    && Sane(b) && k < |b.links| && w in b.links[k].wires
    && (s.Some? ==> s.value != w && s.value.horizontal == w.horizontal && End(s.value) == Start(w) && Listed(b.links, s.value))
    && (e.Some? ==> e.value != w && e.value.horizontal == w.horizontal && Start(e.value) == End(w) && Listed(b.links, e.value))
    && (s.Some? || e.Some?)
    && (forall p :: HasStep(Fused(w, s, e), p) <==>
      HasStep(w, p) || (s.Some? && HasStep(s.value, p)) || (e.Some? && HasStep(e.value, p)))
    && Kept(b, b3, Opt(s) + Opt(e) + [w], k)
  }

  /** The last step of the loop body: putting the fused wire in net `k`
      gives a sane board drawing what the board before drew. */
  lemma RejoinFusedSane(b: Board, k: nat, w: Wire, s: Option<Wire>, e: Option<Wire>, b3: Board)
    requires FuseSetup(b, k, w, s, e, b3)
    ensures Sane(PutWire(b3, k, Fused(w, s, e)))
    ensures forall p, h :: Drawn(PutWire(b3, k, Fused(w, s, e)), p, h) <==> Drawn(b, p, h)
  {
    FusedListed(b, k, w, s, e, b3);
    FusedDrawn(b, k, w, s, e, b3);
    FusedNoOverlap(b, k, w, s, e, b3);
    FusedIndex(b, k, w, s, e, b3);
    FusedSeparate(b, k, w, s, e, b3);
  }

  /** After the step the board lists the wires it listed but the three, and
      the fused wire, which it did not list before. */
  lemma FusedListed(b: Board, k: nat, w: Wire, s: Option<Wire>, e: Option<Wire>, b3: Board)
    requires FuseSetup(b, k, w, s, e, b3)
    ensures var f := Fused(w, s, e);
      && f != w && !Listed(b.links, f)
      && forall v :: Listed(PutWire(b3, k, f).links, v) <==> (Listed(b.links, v) && v !in Opt(s) + Opt(e) + [w]) || v == f
  {
    var f := Fused(w, s, e);
    var r := PutWire(b3, k, f);
    forall v
      ensures Listed(r.links, v) <==> Listed(b3.links, v) || v == f
    {
      if Listed(b3.links, v) {
        var j :| 0 <= j < |b3.links| && v in b3.links[j].wires;
        assert v in r.links[j].wires;
      }
      if v == f {
        assert f in r.links[k].wires;
      }
      if Listed(r.links, v) {
        var j :| 0 <= j < |r.links| && v in r.links[j].wires;
        if j != k {
          assert v in b3.links[j].wires;
        }
      }
    }
    assert HasStep(w, Start(w));
    assert HasStep(f, Start(w));
    assert Listed(b.links, w);
    if Listed(b.links, f) {
      OverlapsSharedStep(f, w);
    }
  }

  /** The step draws what was drawn: the fused wire's steps are those of the
      three wires it replaces. */
  lemma FusedDrawn(b: Board, k: nat, w: Wire, s: Option<Wire>, e: Option<Wire>, b3: Board)
    requires FuseSetup(b, k, w, s, e, b3)
    ensures forall p, h :: Drawn(PutWire(b3, k, Fused(w, s, e)), p, h) <==> Drawn(b, p, h)
  {
    FusedListed(b, k, w, s, e, b3);
    forall p, h
      ensures Drawn(PutWire(b3, k, Fused(w, s, e)), p, h) <==> Drawn(b, p, h)
    {
      if Drawn(b, p, h) {
        FusedDrawnBefore(b, k, w, s, e, b3, p, h);
      }
      if Drawn(PutWire(b3, k, Fused(w, s, e)), p, h) {
        FusedDrawnAfter(b, k, w, s, e, b3, p, h);
      }
    }
  }

  lemma FusedDrawnBefore(b: Board, k: nat, w: Wire, s: Option<Wire>, e: Option<Wire>, b3: Board, p: Point, h: bool)
    requires FuseSetup(b, k, w, s, e, b3) && Drawn(b, p, h)
    ensures Drawn(PutWire(b3, k, Fused(w, s, e)), p, h)
  {
    var gone := Opt(s) + Opt(e) + [w];
    forall v | v in gone
      ensures v.horizontal == w.horizontal && (HasStep(v, p) ==> HasStep(Fused(w, s, e), p))
    {
    }
    DrawnGrows(b, b3, k, Fused(w, s, e), gone, p, h);
  }

  /** Taking wires off a board and putting on one wire covering their steps
      leaves every step drawn. */
  lemma DrawnGrows(b: Board, b3: Board, k: nat, f: Wire, gone: seq<Wire>, p: Point, h: bool)
    requires k < |b3.links|
    requires forall v :: Listed(b3.links, v) <==> Listed(b.links, v) && v !in gone
    requires forall v | v in gone :: v.horizontal == f.horizontal && (HasStep(v, p) ==> HasStep(f, p))
    requires Drawn(b, p, h)
    ensures Drawn(PutWire(b3, k, f), p, h)
  {
    var r := PutWire(b3, k, f);
    var v :| Listed(b.links, v) && v.horizontal == h && HasStep(v, p);
    if v in gone {
      assert f in r.links[k].wires;
    } else {
      assert Listed(b3.links, v);
      var j :| 0 <= j < |b3.links| && v in b3.links[j].wires;
      assert v in r.links[j].wires;
    }
  }

  lemma FusedDrawnAfter(b: Board, k: nat, w: Wire, s: Option<Wire>, e: Option<Wire>, b3: Board, p: Point, h: bool)
    requires FuseSetup(b, k, w, s, e, b3) && Drawn(PutWire(b3, k, Fused(w, s, e)), p, h)
    ensures Drawn(b, p, h)
  {
    var f := Fused(w, s, e);
    var r := PutWire(b3, k, f);
    FusedListed(b, k, w, s, e, b3);
    var v :| Listed(r.links, v) && v.horizontal == h && HasStep(v, p);
    if v != f {
      assert Listed(b.links, v);
    } else if HasStep(w, p) {
      assert Listed(b.links, w);
    } else if s.Some? && HasStep(s.value, p) {
      assert Listed(b.links, s.value);
    } else {
      assert Listed(b.links, e.value);
    }
  }

  /** No wire overlaps the fused one: it would overlap one of the three it
      replaces. */
  lemma FusedNoOverlap(b: Board, k: nat, w: Wire, s: Option<Wire>, e: Option<Wire>, b3: Board)
    requires FuseSetup(b, k, w, s, e, b3)
    ensures NoOverlap(PutWire(b3, k, Fused(w, s, e)))
  {
    var f := Fused(w, s, e);
    var r := PutWire(b3, k, f);
    var gone := Opt(s) + Opt(e) + [w];
    FusedListed(b, k, w, s, e, b3);
    forall v, u | Listed(r.links, v) && Listed(r.links, u) && v != u
      ensures !Overlaps(v, u)
    {
      if v == f || u == f {
        var o := if v == f then u else v;
        assert Listed(b.links, o) && o !in gone;
        OverlapsSharedStep(f, o);
        OverlapsSharedStep(v, u);
        if Overlaps(f, o) {
          var p :| HasStep(f, p) && HasStep(o, p);
          var z := if HasStep(w, p) then w else if s.Some? && HasStep(s.value, p) then s.value else e.value;
          assert z in gone && HasStep(z, p) && Listed(b.links, z) && z != o;
          OverlapsSharedStep(z, o);
        }
      } else {
        assert Listed(b.links, v) && Listed(b.links, u);
      }
    }
  }

  /** The fused wire's connections are sound entries of the index. */
  lemma FusedIndex(b: Board, k: nat, w: Wire, s: Option<Wire>, e: Option<Wire>, b3: Board)
    requires FuseSetup(b, k, w, s, e, b3)
    ensures IndexSound(PutWire(b3, k, Fused(w, s, e)))
  {
    var f := Fused(w, s, e);
    var r := PutWire(b3, k, f);
    FusedListed(b, k, w, s, e, b3);
    forall p: Point, c | Filed(r.index, p, c) && c.WireConnection?
      ensures c in WireConnections(c.wire) && Listed(r.links, c.wire)
    {
      if !Filed(b3.index, p, c) {
        assert c in WireConnections(f);
        var i :| 0 <= i < |WireConnections(f)| && WireConnections(f)[i] == c;
        assert c.wire == f;
      }
    }
  }

  /** The nets stay apart: the fused wire's ends are ends of the three it
      replaces, which are all in net `k`. */
  lemma FusedSeparate(b: Board, k: nat, w: Wire, s: Option<Wire>, e: Option<Wire>, b3: Board)
    requires FuseSetup(b, k, w, s, e, b3)
    ensures Separate(PutWire(b3, k, Fused(w, s, e)).links)
  {
    FusedApartWires(b, k, w, s, e, b3);
    FusedApartPorts(b, k, w, s, e, b3);
    FusedApartTouch(b, k, w, s, e, b3);
  }

  lemma FusedApartWires(b: Board, k: nat, w: Wire, s: Option<Wire>, e: Option<Wire>, b3: Board)
    requires FuseSetup(b, k, w, s, e, b3)
    ensures var r := PutWire(b3, k, Fused(w, s, e)).links;
      forall i, j, v | 0 <= i < j < |r| && v in r[i].wires :: v !in r[j].wires
  {
    var f := Fused(w, s, e);
    var r := PutWire(b3, k, f);
    FusedListed(b, k, w, s, e, b3);
    assert !Listed(b3.links, f);
    forall i, j, v | 0 <= i < j < |r.links| && v in r.links[i].wires
      ensures v !in r.links[j].wires
    {
      assert v in b3.links[i].wires || (i == k && v == f);
      if v == f {
        assert i == k;
        assert v !in b3.links[j].wires;
      } else {
        assert v in b3.links[i].wires;
      }
    }
  }

  lemma FusedApartPorts(b: Board, k: nat, w: Wire, s: Option<Wire>, e: Option<Wire>, b3: Board)
    requires FuseSetup(b, k, w, s, e, b3)
    ensures var r := PutWire(b3, k, Fused(w, s, e)).links;
      forall i, j, q | 0 <= i < j < |r| && q in Members(r[i]) :: q !in Members(r[j])
  {
    var r := PutWire(b3, k, Fused(w, s, e));
    forall i, j, q | 0 <= i < j < |r.links| && q in Members(r.links[i])
      ensures q !in Members(r.links[j])
    {
      assert Members(r.links[i]) == Members(b3.links[i]);
      assert Members(r.links[j]) == Members(b3.links[j]);
    }
  }

  lemma FusedApartTouch(b: Board, k: nat, w: Wire, s: Option<Wire>, e: Option<Wire>, b3: Board)
    requires FuseSetup(b, k, w, s, e, b3)
    ensures var r := PutWire(b3, k, Fused(w, s, e)).links;
      forall i, j, v, u | 0 <= i < j < |r| && v in r[i].wires && u in r[j].wires :: !Touch(v, u)
  {
    var f := Fused(w, s, e);
    var r := PutWire(b3, k, f);
    FusedInNet(b, k, w, s, e);
    FusedEnds(w, s, e);
    forall i, j, v, u | 0 <= i < j < |r.links| && v in r.links[i].wires && u in r.links[j].wires
      ensures !Touch(v, u)
    {
      if v == f && i == k {
        assert u in b.links[j].wires;
        FusedTouch(b, k, j, w, s, e, u);
      } else if u == f && j == k {
        assert v in b.links[i].wires;
        FusedTouch(b, k, i, w, s, e, v);
      } else {
        assert v in b3.links[i].wires && u in b3.links[j].wires;
      }
    }
  }

  /** The fused wire starts where the first of the three starts and ends
      where the last ends. */
  lemma FusedEnds(w: Wire, s: Option<Wire>, e: Option<Wire>)
    requires s.Some? ==> s.value.horizontal == w.horizontal && End(s.value) == Start(w)
    requires e.Some? ==> e.value.horizontal == w.horizontal && Start(e.value) == End(w)
    ensures Start(Fused(w, s, e)) == Start(w) || (s.Some? && Start(Fused(w, s, e)) == Start(s.value))
    ensures End(Fused(w, s, e)) == End(w) || (e.Some? && End(Fused(w, s, e)) == End(e.value))
  {
  }

  /** The partners are in the wire's own net: in another net they would
      touch it. */
  lemma FusedInNet(b: Board, k: nat, w: Wire, s: Option<Wire>, e: Option<Wire>)
    requires Separate(b.links) && k < |b.links| && w in b.links[k].wires
    requires s.Some? ==> End(s.value) == Start(w) && Listed(b.links, s.value)
    requires e.Some? ==> Start(e.value) == End(w) && Listed(b.links, e.value)
    ensures s.Some? ==> s.value in b.links[k].wires
    ensures e.Some? ==> e.value in b.links[k].wires
  {
    forall z | z in Opt(s) + Opt(e)
      ensures z in b.links[k].wires
    {
      var j :| 0 <= j < |b.links| && z in b.links[j].wires;
      assert Touch(z, w) && Touch(w, z);
      assert j == k;
    }
    if s.Some? {
      assert s.value in Opt(s) + Opt(e);
    }
    if e.Some? {
      assert e.value in Opt(s) + Opt(e);
    }
  }

  /** A wire of another net touches none of the wires of net `k`, so it
      does not touch a wire whose ends are theirs. */
  lemma FusedTouch(b: Board, k: nat, j: nat, w: Wire, s: Option<Wire>, e: Option<Wire>, u: Wire)
    requires Separate(b.links) && k < |b.links| && j < |b.links| && j != k
    requires w in b.links[k].wires && u in b.links[j].wires
    requires s.Some? ==> s.value in b.links[k].wires && End(s.value) == Start(w)
    requires e.Some? ==> e.value in b.links[k].wires && Start(e.value) == End(w)
    requires Start(Fused(w, s, e)) == Start(w) || (s.Some? && Start(Fused(w, s, e)) == Start(s.value))
    requires End(Fused(w, s, e)) == End(w) || (e.Some? && End(Fused(w, s, e)) == End(e.value))
    ensures !Touch(Fused(w, s, e), u) && !Touch(u, Fused(w, s, e))
  {
    forall z | z in b.links[k].wires
      ensures !Touch(z, u) && !Touch(u, z)
    {
      if k < j {
        assert !Touch(z, u);
      } else {
        assert !Touch(u, z);
      }
    }
  }

  /** The loop over one net keeps a sane board sane and draws the same
      steps: every wire of the snapshot not yet taken off is still in the
      net when the loop reaches it. */
  lemma {:induction false} RejoinNetSane(b: Board, k: nat, ws: seq<Wire>, i: nat, removed: seq<Wire>)
    requires Sane(b) && k < |b.links|
    requires forall v | v in ws && v !in removed :: v in b.links[k].wires
    ensures Sane(RejoinNet(b, k, ws, i, removed))
    ensures forall p, h :: Drawn(RejoinNet(b, k, ws, i, removed), p, h) <==> Drawn(b, p, h)
    decreases |ws| - i
  {
    if i < |ws| && ws[i] !in removed {
      var (b1, gone) := RejoinWire(b, k, ws[i]);
      RejoinWireSane(b, k, ws[i]);
      RejoinNetSane(b1, k, ws, i + 1, removed + gone);
    } else if i < |ws| {
      RejoinNetSane(b, k, ws, i + 1, removed);
    }
  }

  /** The loop over the nets from the `k`th on keeps a sane board sane and
      draws the same steps. */
  lemma {:induction false} RejoinFromSane(b: Board, k: nat)
    requires Sane(b)
    ensures Sane(RejoinFrom(b, k))
    ensures forall p, h :: Drawn(RejoinFrom(b, k), p, h) <==> Drawn(b, p, h)
    decreases |b.links| - k
  {
    if k < |b.links| {
      RejoinNetSane(b, k, b.links[k].wires, 0, []);
      RejoinFromSane(RejoinNet(b, k, b.links[k].wires, 0, []), k + 1);
    }
  }

  /** `rejoinWires` on a sane board: the board stays sane (the index files
      only listed wires, no two wires overlap, the nets stay apart) and the
      same horizontal and vertical steps are drawn as before, so merging
      wires never changes the picture or the connectivity on screen. */
  lemma RejoinKeepsDrawing(b: Board)
    requires Sane(b)
    ensures Sane(RejoinWires(b))
    ensures forall p, h :: Drawn(RejoinWires(b), p, h) <==> Drawn(b, p, h)
  {
    if b.rejoin {
      RejoinFromSane(b, 0);
    }
  }

  /** The nets keep their ports through `rejoinWires`: only wires are taken
      off and put back. */
  predicate SamePortsAs(a: Board, r: Board)
  {
    |r.links| == |a.links| && forall j | 0 <= j < |a.links| :: Members(r.links[j]) == Members(a.links[j])
  }

  lemma RejoinWirePorts(b: Board, k: nat, w: Wire)
    requires k < |b.links|
    ensures SamePortsAs(b, RejoinWire(b, k, w).0)
  {
  }

  lemma {:induction false} RejoinNetPorts(b: Board, k: nat, ws: seq<Wire>, i: nat, removed: seq<Wire>)
    requires k < |b.links|
    ensures SamePortsAs(b, RejoinNet(b, k, ws, i, removed))
    decreases |ws| - i
  {
    if i < |ws| && ws[i] !in removed {
      var (b1, gone) := RejoinWire(b, k, ws[i]);
      RejoinWirePorts(b, k, ws[i]);
      RejoinNetPorts(b1, k, ws, i + 1, removed + gone);
    } else if i < |ws| {
      RejoinNetPorts(b, k, ws, i + 1, removed);
    }
  }

  lemma {:induction false} RejoinFromPorts(b: Board, k: nat)
    ensures SamePortsAs(b, RejoinFrom(b, k))
    decreases |b.links| - k
  {
    if k < |b.links| {
      RejoinNetPorts(b, k, b.links[k].wires, 0, []);
      RejoinFromPorts(RejoinNet(b, k, b.links[k].wires, 0, []), k + 1);
    }
  }

  /** `rejoinWires` on any board leaves every net with the ports it had. */
  lemma RejoinKeepsPorts(b: Board)
    ensures SamePortsAs(b, RejoinWires(b))
  {
    if b.rejoin {
      RejoinFromPorts(b, 0);
    }
  }
}
