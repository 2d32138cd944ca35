/** `CircuitBoard.removeElements`: components are removed with
    `removeComponent`; for a wire, every wire of its orientation met along
    it is cut so that exactly the part the wire covers is marked for
    removal, and the pieces of the wire beyond what was met are removed in
    turn. The marked wires leave the index at once and leave their nets at
    the end, when each net that had one is regrouped with `splitWires`;
    then the board is rejoined. */
module Removal {
  import opened Wrappers
  import opened OrderedSets
  import opened GuiElements
  import opened Wires
  import opened Connections
  import opened Links
  import opened Boards
  import Splices
  import Rejoining
  import Wiring
  import Placement

  /** A wire of `e`'s orientation that the loop acts on: `e` itself, a
      wire within it, a wire containing it, or one overlapping it. */
  predicate Clashes(w: Wire, e: Wire)
  {
    w.horizontal == e.horizontal && (w == e || Wires.IsWithin(w, e) || Wires.IsWithin(e, w) || Overlaps(w, e))
  }

  /** Each of the four cases shares a unit step with `e`, so a wire clashes
      with `e` exactly when it overlaps it. */
  lemma ClashesIffOverlaps(w: Wire, e: Wire)
    ensures Clashes(w, e) <==> Overlaps(w, e)
  {
    OverlapsSharedStep(w, e);
    OverlapsSharedStep(e, w);
    if w == e {
      assert Wires.IsWithin(w, e);
    }
  }

  /** The first wire connection of the bucket whose wire clashes with `e`:
      where the scan of the bucket breaks. */
  function Pick(cs: seq<Connection>, e: Wire): (r: Option<Wire>)
    ensures r.None? <==> forall c | c in cs && c.WireConnection? :: !Clashes(c.wire, e)
    ensures r.Some? ==> exists i | 0 <= i < |cs| ::
      && cs[i].WireConnection? && cs[i].wire == r.value && Clashes(r.value, e)
      && forall j | 0 <= j < i :: !(cs[j].WireConnection? && Clashes(cs[j].wire, e))
  {
    if cs == [] then None
    else if cs[0].WireConnection? && Clashes(cs[0].wire, e) then Some(cs[0].wire)
    else
      var r := Pick(cs[1..], e);
      assert forall c | c in cs :: c == cs[0] || c in cs[1..];
      if r.Some? then
        var i :| 0 <= i < |cs[1..]| && cs[1..][i].WireConnection? && cs[1..][i].wire == r.value && Clashes(r.value, e)
          && forall j | 0 <= j < i :: !(cs[1..][j].WireConnection? && Clashes(cs[1..][j].wire, e));
        assert cs[i + 1] == cs[1..][i];
        assert forall j | 1 <= j < i + 1 :: cs[j] == cs[1..][j - 1];
        r
      else r
  }

  /** Wires as elements. */
  function AsElements(ws: seq<Wire>): (r: seq<Element>)
    ensures forall x :: x in r <==> x.WireElement? && x.wire in ws
  {
    if ws == [] then []
    else
      assert forall w | w in ws :: w == ws[0] || w in ws[1..];
      [WireElement(ws[0])] + AsElements(ws[1..])
  }

  /** A wire clashing with `e` without being within it or containing it
      overlaps it partly, so `spliceOverlappingWire` succeeds on the two. */
  lemma OverlapSplits(e: Wire, w: Wire)
    requires Clashes(w, e) && !Wires.IsWithin(w, e) && !Wires.IsWithin(e, w)
    ensures Splices.SpliceOverlappingWire(e, w).Success?
    ensures forall p :: Splices.ThreeWay(Splices.SpliceOverlappingWire(e, w).value, e, w, p)
  {
    assert Wires.IsWithin(e, e);
    OverlapsSharedStep(w, e);
    Splices.SpliceOverlappingPartition(e, w);
  }

  /** The wire the scan marks for removal when it breaks on `w`. */
  function Marked(e: Wire, w: Wire): Wire
    requires Clashes(w, e)
  {
    if w == e || Wires.IsWithin(w, e) then w
    else if Wires.IsWithin(e, w) then e
    else
      OverlapSplits(e, w);
      Splices.SpliceOverlappingWire(e, w).value.middle
  }

  /** The state of the loop over one wire: the board, the elements still
      to remove, and the wires marked for removal (`toRemove`). */
  datatype Scan = Scan(board: Board, todo: seq<Element>, marked: seq<Wire>)

  /** One break of the scan over `e`, on the wire `w` that clashes with
      it. Only the part of a wire that `e` covers is ever marked: a wire
      within `e` is marked whole and the rest of `e` is queued; a wire
      containing `e` is cut into the part outside `e` and a copy of `e`,
      which is marked; an overlapping wire is cut into its part outside
      `e` and the shared middle, which is marked, and the part of `e`
      outside it is queued. */
  function Step(s: Scan, e: Wire, w: Wire): (r: Scan)
    requires Clashes(w, e)
    ensures Frame(s.board, r.board)
    ensures forall x | x in r.todo :: x in s.todo || x in Queued(e, w)
    ensures forall x | x in s.todo || x in Queued(e, w) :: x in r.todo
    ensures forall v :: v in r.marked <==> v in s.marked || v == Marked(e, w)
    ensures Distinct(s.marked) ==> Distinct(r.marked)
  {
    if w == e then s.(marked := Insert(s.marked, w))
    else if Wires.IsWithin(w, e) then
      var pieces := Splices.SpliceWire(e, w).value;
      s.(todo := InsertAll(s.todo, AsElements(pieces)), marked := Insert(s.marked, w))
    else if Wires.IsWithin(e, w) then
      var (b1, k) := Enlist(s.board, WireConnection(w, Point(0, 0)));
      var pieces := Splices.SpliceWire(w, e).value;
      s.(board := Wiring.PutAll(TakeWire(b1, w), k, pieces + [e]), marked := Insert(s.marked, e))
    else
      OverlapSplits(e, w);
      var (b1, k) := Enlist(s.board, WireConnection(w, Point(0, 0)));
      var t := Splices.SpliceOverlappingWire(e, w).value;
      s.(board := Wiring.PutAll(TakeWire(b1, w), k, [t.middle, t.third]),
         todo := Insert(s.todo, WireElement(t.first)), marked := Insert(s.marked, t.middle))
  }

  /** The parts of `e` the scan queues for removal when it breaks on `w`. */
  function Queued(e: Wire, w: Wire): (r: seq<Element>)
    requires Clashes(w, e)
    ensures forall x | x in r :: x.WireElement? && Wires.IsWithin(x.wire, e)
  {
    if w == e then []
    else if Wires.IsWithin(w, e) then AsElements(Splices.SpliceWire(e, w).value)
    else if Wires.IsWithin(e, w) then []
    else
      OverlapSplits(e, w);
      [WireElement(Splices.SpliceOverlappingWire(e, w).value.first)]
  }

  /** The marked wire covers exactly the steps `e` and `w` share, and the
      queued wires cover exactly the steps of `e` outside `w`: between
      them, the whole of `e`. */
  lemma StepCuts(e: Wire, w: Wire)
    requires Clashes(w, e)
    ensures forall p :: HasStep(Marked(e, w), p) <==> HasStep(e, p) && HasStep(w, p)
    ensures forall p :: (exists x | x in Queued(e, w) :: HasStep(x.wire, p)) <==> HasStep(e, p) && !HasStep(w, p)
    ensures forall x | x in Queued(e, w) :: x.WireElement? && x.wire.horizontal == e.horizontal
  {
    if w == e {
    } else if Wires.IsWithin(w, e) {
      var pieces := Splices.SpliceWire(e, w).value;
      IsWithinPoints(w, e);
      forall p
        ensures (exists x | x in Queued(e, w) :: HasStep(x.wire, p)) <==> HasStep(e, p) && !HasStep(w, p)
      {
        if HasStep(e, p) && !HasStep(w, p) {
          var i :| 0 <= i < |pieces| && HasStep(pieces[i], p);
          assert WireElement(pieces[i]) in Queued(e, w);
        }
        if exists x | x in Queued(e, w) :: HasStep(x.wire, p) {
          var x :| x in Queued(e, w) && HasStep(x.wire, p);
          var i :| 0 <= i < |pieces| && pieces[i] == x.wire;
        }
      }
    } else if Wires.IsWithin(e, w) {
      IsWithinPoints(e, w);
    } else {
      OverlapSplits(e, w);
      var t := Splices.SpliceOverlappingWire(e, w).value;
      assert Queued(e, w) == [WireElement(t.first)];
      forall p
        ensures (exists x | x in Queued(e, w) :: HasStep(x.wire, p)) <==> HasStep(e, p) && !HasStep(w, p)
      {
        assert Splices.ThreeWay(t, e, w, p);
        assert WireElement(t.first) in Queued(e, w);
      }
    }
  }

  /** The wires that take `w`'s place in its net when the scan breaks on
      it: the part outside `e` and the copy of `e`, or the shared middle and
      the part of `w` outside `e`; none when `w` is within `e`. */
  function Replacing(e: Wire, w: Wire): seq<Wire>
    requires Clashes(w, e)
  {
    if w == e || Wires.IsWithin(w, e) then []
    else if Wires.IsWithin(e, w) then Splices.SpliceWire(w, e).value + [e]
    else
      OverlapSplits(e, w);
      var t := Splices.SpliceOverlappingWire(e, w).value;
      [t.middle, t.third]
  }

  /** The replacing wires cover exactly the steps of `w`, with its
      orientation, and include the marked wire. */
  lemma ReplacingCovers(e: Wire, w: Wire)
    requires Clashes(w, e) && w != e && !Wires.IsWithin(w, e)
    ensures forall v | v in Replacing(e, w) :: v.horizontal == w.horizontal
    ensures forall p :: HasStep(w, p) <==> exists v | v in Replacing(e, w) :: HasStep(v, p)
    ensures Marked(e, w) in Replacing(e, w)
  {
    var ws := Replacing(e, w);
    if Wires.IsWithin(e, w) {
      var pieces := Splices.SpliceWire(w, e).value;
      assert ws == pieces + [e];
      forall p | HasStep(w, p)
        ensures exists v | v in ws :: HasStep(v, p)
      {
        if !HasStep(e, p) {
          var i :| 0 <= i < |pieces| && HasStep(pieces[i], p);
          assert ws[i] == pieces[i];
        } else {
          assert ws[|pieces|] == e;
        }
      }
      IsWithinPoints(e, w);
      forall p | exists v | v in ws :: HasStep(v, p)
        ensures HasStep(w, p)
      {
        var v :| v in ws && HasStep(v, p);
        if v != e {
          var i :| 0 <= i < |pieces| && pieces[i] == v;
          assert Splices.Covers(pieces, p);
        }
      }
    } else {
      OverlapSplits(e, w);
      var t := Splices.SpliceOverlappingWire(e, w).value;
      forall p
        ensures HasStep(w, p) <==> exists v | v in ws :: HasStep(v, p)
      {
        assert Splices.ThreeWay(t, e, w, p);
        assert ws[0] == t.middle && ws[1] == t.third;
      }
    }
  }

  /** Taking a listed wire out of its net and putting others in its place
      keeps every other wire and every port, and lists the new wires. */
  lemma ReplaceLists(b: Board, w: Wire, ws: seq<Wire>)
    requires WireOwner(b.links, w).Some?
    ensures var r := Wiring.PutAll(TakeWire(b, w), WireOwner(b.links, w).value, ws);
      && (forall v | Listed(b.links, v) && v != w :: Listed(r.links, v))
      && (forall v | v in ws :: Listed(r.links, v))
      && (forall v | Listed(r.links, v) :: Listed(b.links, v) || v in ws)
      && (forall u :: Seated(r.links, u) <==> Seated(b.links, u))
  {
    var k := WireOwner(b.links, w).value;
    var b2 := TakeWire(b, w);
    var r := Wiring.PutAll(b2, k, ws);
    forall v | v in ws
      ensures Listed(r.links, v)
    {
      assert v in r.links[k].wires;
    }
    forall v | Listed(b.links, v) && v != w
      ensures Listed(r.links, v)
    {
      var j :| 0 <= j < |b.links| && v in b.links[j].wires;
      assert v in r.links[j].wires;
    }
    forall v | Listed(r.links, v)
      ensures Listed(b.links, v) || v in ws
    {
      var j :| 0 <= j < |r.links| && v in r.links[j].wires;
      if v !in ws {
        assert v in b.links[j].wires;
      }
    }
    forall u
      ensures Seated(r.links, u) <==> Seated(b.links, u)
    {
      if Seated(r.links, u) {
        var j :| 0 <= j < |r.links| && u in Members(r.links[j]);
        assert u in Members(b.links[j]);
      }
      if Seated(b.links, u) {
        var j :| 0 <= j < |b.links| && u in Members(b.links[j]);
        assert u in Members(r.links[j]);
      }
    }
  }

  /** Replacing a listed wire by wires that cover exactly its steps, with
      its orientation, draws what was drawn. */
  lemma ReplaceDraws(a: Board, r: Board, w: Wire, ws: seq<Wire>)
    requires Listed(a.links, w)
    requires forall v | v in ws :: v.horizontal == w.horizontal
    requires forall p :: HasStep(w, p) <==> exists v | v in ws :: HasStep(v, p)
    requires forall v | Listed(a.links, v) && v != w :: Listed(r.links, v)
    requires forall v | v in ws :: Listed(r.links, v)
    requires forall v | Listed(r.links, v) :: Listed(a.links, v) || v in ws
    ensures forall p, h :: Rejoining.Drawn(r, p, h) <==> Rejoining.Drawn(a, p, h)
  {
    forall p, h | Rejoining.Drawn(a, p, h)
      ensures Rejoining.Drawn(r, p, h)
    {
      var v :| Listed(a.links, v) && v.horizontal == h && HasStep(v, p);
      if v == w {
        var u :| u in ws && HasStep(u, p);
      }
    }
    forall p, h | Rejoining.Drawn(r, p, h)
      ensures Rejoining.Drawn(a, p, h)
    {
      var v :| Listed(r.links, v) && v.horizontal == h && HasStep(v, p);
      if v in ws {
        assert HasStep(w, p);
      }
    }
  }

  /** The scan of `element` from its `i`th point on: at each point the
      bucket is searched for the first clashing wire, and the scan breaks
      there. */
  function ScanFrom(s: Scan, e: Wire, i: nat): (r: Scan)
    ensures Frame(s.board, r.board)
    ensures forall x | x in s.todo :: x in r.todo
    ensures forall x | x in r.todo :: x in s.todo || x.WireElement?
    ensures forall v | v in s.marked :: v in r.marked
    ensures Distinct(s.marked) ==> Distinct(r.marked)
    decreases e.length - i
  {
    if i >= e.length then s
    else
      var p := Along(Point(e.x, e.y), e.horizontal, i);
      match Pick(GetConnections(s.board.index, p.x, p.y), e)
      case None => ScanFrom(s, e, i + 1)
      case Some(w) => ScanFrom(Step(s, e, w), e, i + 1)
  }

  /** `removeConnection` for every connection of each wire. */
  function UnfileWires(m: Index, ws: seq<Wire>): (r: Index)
    ensures IndexOk(m) ==> IndexOk(r)
    ensures IndexOk(m) ==> forall p: Point, d :: Filed(r, p, d) <==>
      Filed(m, p, d) && !(exists w | w in ws :: d in WireConnections(w))
    decreases |ws|
  {
    if ws == [] then m
    else
      assert forall w | w in ws :: w == ws[0] || w in ws[1..];
      UnfileWires(UnfileAll(m, WireConnections(ws[0])), ws[1..])
  }

  /** A list of nets joined to another holds the ports and wires of both. */
  lemma ConcatPools(a: seq<LinkWires>, b: seq<LinkWires>)
    ensures forall v :: Listed(a + b, v) <==> Listed(a, v) || Listed(b, v)
    ensures forall q :: Seated(a + b, q) <==> Seated(a, q) || Seated(b, q)
  {
    var r := a + b;
    forall v | Listed(r, v)
      ensures Listed(a, v) || Listed(b, v)
    {
      var j :| 0 <= j < |r| && v in r[j].wires;
      if j >= |a| {
        assert b[j - |a|] == r[j];
      }
    }
    forall v | Listed(b, v)
      ensures Listed(r, v)
    {
      var j :| 0 <= j < |b| && v in b[j].wires;
      assert r[j + |a|] == b[j];
    }
    forall v | Listed(a, v)
      ensures Listed(r, v)
    {
      var j :| 0 <= j < |a| && v in a[j].wires;
      assert r[j] == a[j];
    }
    forall q | Seated(r, q)
      ensures Seated(a, q) || Seated(b, q)
    {
      var j :| 0 <= j < |r| && q in Members(r[j]);
      if j >= |a| {
        assert b[j - |a|] == r[j];
      }
    }
    forall q | Seated(b, q)
      ensures Seated(r, q)
    {
      var j :| 0 <= j < |b| && q in Members(b[j]);
      assert r[j + |a|] == b[j];
    }
    forall q | Seated(a, q)
      ensures Seated(r, q)
    {
      var j :| 0 <= j < |a| && q in Members(a[j]);
      assert r[j] == a[j];
    }
  }

  /** `splitWires` of each net in turn, the results joined. */
  function SplitAll(hit: seq<LinkWires>, gone: set<Wire>): (r: seq<LinkWires>)
    ensures forall v :: Listed(r, v) <==> Listed(hit, v) && v !in gone
    ensures forall q | Seated(r, q) :: Seated(hit, q)
    ensures Placement.AllCoherent(r)
    decreases |hit|
  {
    if hit == [] then []
    else
      var first := SplitWires(hit[0], gone);
      var rest := SplitAll(hit[1..], gone);
      ConcatPools(first, rest);
      ConcatPools([hit[0]], hit[1..]);
      assert [hit[0]] + hit[1..] == hit;
      assert forall v :: Listed(first, v) <==> Wired(first, v);
      assert forall q :: Seated(first, q) <==> Ported(first, q);
      assert forall v :: Listed([hit[0]], v) <==> v in hit[0].wires;
      assert forall q :: Seated([hit[0]], q) <==> q in Members(hit[0]);
      first + rest
  }

  /** Some net holds a wire of the set. */
  predicate Hit(l: LinkWires, gone: set<Wire>)
  {
    exists v | v in l.wires :: v in gone
  }

  /** The last part of `removeElements`: every net holding a marked wire
      is replaced by the nets `splitWires` makes of it without them; the
      other nets stay, ahead of the new ones. */
  function Regroup(links: seq<LinkWires>, gone: set<Wire>): (r: seq<LinkWires>)
    ensures forall v :: Listed(r, v) <==> Listed(links, v) && v !in gone
    ensures forall q | Seated(r, q) :: Seated(links, q)
    ensures Placement.AllCoherent(links) ==> Placement.AllCoherent(r)
  {
    var (hit, kept) := Split(links, l => Hit(l, gone));
    RegroupSound(links, gone, hit, kept);
    kept + SplitAll(hit, gone)
  }

  lemma RegroupSound(links: seq<LinkWires>, gone: set<Wire>, hit: seq<LinkWires>, kept: seq<LinkWires>)
    requires forall l :: l in hit <==> l in links && Hit(l, gone)
    requires forall l :: l in kept <==> l in links && !Hit(l, gone)
    ensures var r := kept + SplitAll(hit, gone);
      && (forall v :: Listed(r, v) <==> Listed(links, v) && v !in gone)
      && (forall q | Seated(r, q) :: Seated(links, q))
      && (Placement.AllCoherent(links) ==> Placement.AllCoherent(r))
  {
    var r := kept + SplitAll(hit, gone);
    ConcatPools(kept, SplitAll(hit, gone));
    forall v | Listed(links, v) && v !in gone
      ensures Listed(r, v)
    {
      var j :| 0 <= j < |links| && v in links[j].wires;
      if Hit(links[j], gone) {
        assert Listed(hit, v) by {
          assert links[j] in hit;
          var i :| 0 <= i < |hit| && hit[i] == links[j];
        }
      } else {
        assert links[j] in kept;
        var i :| 0 <= i < |kept| && kept[i] == links[j];
      }
    }
    forall v | Listed(r, v)
      ensures Listed(links, v) && v !in gone
    {
      if Listed(kept, v) {
        var j :| 0 <= j < |kept| && v in kept[j].wires;
        assert kept[j] in links && !Hit(kept[j], gone);
        var i :| 0 <= i < |links| && links[i] == kept[j];
      } else {
        var j :| 0 <= j < |hit| && v in hit[j].wires;
        assert hit[j] in links;
        var i :| 0 <= i < |links| && links[i] == hit[j];
      }
    }
    forall q | Seated(r, q)
      ensures Seated(links, q)
    {
      if Seated(kept, q) {
        var j :| 0 <= j < |kept| && q in Members(kept[j]);
        assert kept[j] in links;
        var i :| 0 <= i < |links| && links[i] == kept[j];
      } else {
        var j :| 0 <= j < |hit| && q in Members(hit[j]);
        assert hit[j] in links;
        var i :| 0 <= i < |links| && links[i] == hit[j];
      }
    }
    if Placement.AllCoherent(links) {
      forall j | 0 <= j < |r|
        ensures Coherent(r[j])
      {
        if j < |kept| {
          assert kept[j] in links;
          assert r[j] == kept[j];
        } else {
          assert r[j] == SplitAll(hit, gone)[j - |kept|];
        }
      }
    }
  }

  /** Where the outer loop stands: the board, the marked wires gathered
      so far, and the exception `circuit.removeComponent` threw, if one
      did. */
  datatype Pass = Pass(board: Board, gone: set<Wire>, fault: Option<Fault>)

  /** What `removeElements` leaves: the board, and the exception that
      escaped it, if any. */
  datatype Removed = Removed(board: Board, fault: Option<Fault>)

  /** Some element still to remove is a component whose removal from the
      circuit throws: `faults` maps a component's identity to what
      `circuit.removeComponent` throws for it. */
  predicate Refused(todo: seq<Element>, fromList: bool, faults: map<nat, Fault>)
  {
    fromList && exists e | e in todo :: e.ComponentElement? && e.peer.id in faults
  }

  /** The outer loop of `removeElements`, taking one element at a time
      from the front of the elements still to remove, with the marked wires
      gathered in `gone`. A component leaves the board first; then, when
      `fromList` is set, `circuit.removeComponent` is called, and an
      exception it throws leaves the loop at once, with the elements after
      it unprocessed. The loop ends because every queued piece is shorter
      than the wire it came from, but the number of pieces has no simple
      bound, so `fuel` bounds the number of rounds: `None` when it runs
      out. */
  function Loop(b: Board, todo: seq<Element>, gone: set<Wire>, fromList: bool, faults: map<nat, Fault>, fuel: nat): (r: Option<Pass>)
    ensures r.Some? ==> Frame(b, r.value.board.(components := b.components))
    ensures r.Some? ==> (r.value.fault.Some? <==> Refused(todo, fromList, faults))
    ensures r.Some? && r.value.fault.None? ==> forall d :: d in r.value.board.components <==>
      d in b.components && !(fromList && ComponentElement(d) in todo)
    ensures r.Some? && r.value.fault.Some? ==>
      && (forall d | d in r.value.board.components :: d in b.components)
      && (exists c :: ComponentElement(c) in todo && c.id in faults
            && r.value.fault == Some(faults[c.id]) && c !in r.value.board.components)
    decreases fuel
  {
    if todo == [] then Some(Pass(b, gone, None))
    else if fuel == 0 then None
    else
      assert forall x | x in todo :: x == todo[0] || x in todo[1..];
      match todo[0]
      case ComponentElement(c) =>
        var b1 := Placement.RemoveComponent(b, c, fromList);
        if fromList && c.id in faults then Some(Pass(b1, gone, Some(faults[c.id])))
        else Loop(b1, todo[1..], gone, fromList, faults, fuel - 1)
      case WireElement(e) =>
        var s := ScanFrom(Scan(b, todo[1..], []), e, 0);
        var b1 := s.board.(index := UnfileWires(s.board.index, s.marked));
        Loop(b1, s.todo, gone + (set v | v in s.marked), fromList, faults, fuel - 1)
  }

  /** `removeElements`: the loop, then every net that held a marked wire
      is regrouped without them, then the board is rejoined. Components
      leave the component list when `removeFromCircuit` is set. An
      exception from `circuit.removeComponent` escapes with the board as
      the loop left it: no net regrouped, nothing rejoined. */
  function RemoveElements(b: Board, elements: seq<Element>, removeFromCircuit: bool, faults: map<nat, Fault>, fuel: nat): (r: Option<Removed>)
    ensures r.Some? ==> r.value.board.moving == b.moving && r.value.board.delta == b.delta && r.value.board.rejoin == b.rejoin
    ensures r.Some? ==> (r.value.fault.Some? <==> Refused(elements, removeFromCircuit, faults))
    ensures r.Some? && r.value.fault.None? ==> forall d :: d in r.value.board.components <==>
      d in b.components && !(removeFromCircuit && ComponentElement(d) in elements)
    ensures r.Some? && r.value.fault.Some? ==>
      exists c :: ComponentElement(c) in elements && c.id in faults
        && r.value.fault == Some(faults[c.id]) && c !in r.value.board.components
  {
    match Loop(b, elements, {}, removeFromCircuit, faults, fuel)
    case None => None
    case Some(p) =>
      if p.fault.Some? then Some(Removed(p.board, p.fault))
      else Some(Removed(Rejoining.RejoinWires(p.board.(links := Regroup(p.board.links, p.gone))), None))
  }

  /** A component whose removal from the circuit throws stops
      `removeElements` right after it leaves the board: the elements after
      it stay, and no net is regrouped or rejoined. */
  lemma RemoveElementsStops(b: Board, c: Peer, rest: seq<Element>, faults: map<nat, Fault>, fuel: nat)
    requires fuel > 0 && c.id in faults
    ensures RemoveElements(b, [ComponentElement(c)] + rest, true, faults, fuel)
      == Some(Removed(Placement.RemoveComponent(b, c, true), Some(faults[c.id])))
  {
  }

  /** When no element's removal from the circuit throws, the faults play
      no part: the loop is the loop without them. */
  lemma {:induction false} LoopUnrefused(b: Board, todo: seq<Element>, gone: set<Wire>, fromList: bool, faults: map<nat, Fault>, fuel: nat)
    requires !Refused(todo, fromList, faults)
    ensures Loop(b, todo, gone, fromList, faults, fuel) == Loop(b, todo, gone, fromList, map[], fuel)
    decreases fuel
  {
    if todo != [] && fuel > 0 {
      match todo[0]
      case ComponentElement(c) =>
        assert !Refused(todo[1..], fromList, faults) by {
          forall x | x in todo[1..] ensures x in todo { }
        }
        LoopUnrefused(Placement.RemoveComponent(b, c, fromList), todo[1..], gone, fromList, faults, fuel - 1);
      case WireElement(e) =>
        var s := ScanFrom(Scan(b, todo[1..], []), e, 0);
        assert !Refused(s.todo, fromList, faults) by {
          forall x | x in s.todo && x.ComponentElement? ensures x in todo {
            assert x in todo[1..];
          }
        }
        var b1 := s.board.(index := UnfileWires(s.board.index, s.marked));
        LoopUnrefused(b1, s.todo, gone + (set v | v in s.marked), fromList, faults, fuel - 1);
    }
  }

  /** The same for `removeElements`: with no refusing component, the
      result is the fault-free removal. */
  lemma RemoveElementsUnrefused(b: Board, elements: seq<Element>, removeFromCircuit: bool, faults: map<nat, Fault>, fuel: nat)
    requires !Refused(elements, removeFromCircuit, faults)
    ensures RemoveElements(b, elements, removeFromCircuit, faults, fuel) == RemoveElements(b, elements, removeFromCircuit, map[], fuel)
  {
    LoopUnrefused(b, elements, {}, removeFromCircuit, faults, fuel);
  }
}
