/** What `removeElements` achieves (CircuitBoard.kt): on a board whose
    index and nets agree, removing a set of elements erases exactly the
    unit steps their wires cover, in each wire's orientation, and leaves
    everything else drawn. The proof follows the loop: each break of the
    scan over a wire replaces the wire it met by pieces covering the same
    steps, so nothing is drawn anew, and marks the part the scanned wire
    covers; whatever of the scanned wire was not marked is queued. */
module Erasing {
  import opened Wrappers
  import opened OrderedSets
  import opened GuiElements
  import opened Wires
  import opened Connections
  import opened Links
  import opened Boards
  import Splices
  import Rejoining
  import Wiring
  import Placement
  import opened Removal

  /** A listed wire outside `gone` covers the unit step from `p` in the
      orientation: what stays drawn once the wires of `gone` are dropped. */
  ghost predicate Shown(b: Board, gone: set<Wire>, p: Point, horizontal: bool)
  {
    exists v | Listed(b.links, v) && v !in gone :: v.horizontal == horizontal && HasStep(v, p)
  }

  /** No wire is in two nets. */
  predicate Unshared(links: seq<LinkWires>)
  {
    forall i, j, v | 0 <= i < j < |links| && v in links[i].wires :: v !in links[j].wires
  }

  /** What the loop of `removeElements` keeps true of the board, with the
      wires it has marked so far in `gone`: the index files exactly the
      connections of the listed wires outside `gone`, each under its point;
      no two listed wires overlap; no wire is in two nets; and the marked
      wires stay in their nets until the end. */
  ghost predicate Kept(b: Board, gone: set<Wire>)
  {
    && IndexOk(b.index)
    && (forall p: Point, c | Filed(b.index, p, c) && c.WireConnection? ::
          c in WireConnections(c.wire) && Listed(b.links, c.wire) && c.wire !in gone)
    && (forall v, c | Listed(b.links, v) && v !in gone && c in WireConnections(v) :: Filed(b.index, Position(c), c))
    && Rejoining.NoOverlap(b)
    && Unshared(b.links)
    && (forall v | v in gone :: Listed(b.links, v))
  }

  /** A board in order: its index files exactly the connections of its
      listed wires, no two listed wires overlap and no wire is in two
      nets. */
  ghost predicate Orderly(b: Board)
  {
    Kept(b, {})
  }

  /** Some wire element of the list covers the unit step from `p` in the
      orientation. */
  ghost predicate Covered(es: seq<Element>, p: Point, horizontal: bool)
  {
    exists x | x in es :: x.WireElement? && x.wire.horizontal == horizontal && HasStep(x.wire, p)
  }

  /** Every wire has a unit step from its start. */
  lemma StartStep(w: Wire)
    ensures HasStep(w, Start(w))
  {
  }

  /** Two wires of one orientation sharing a unit step overlap. */
  lemma SharedStep(u: Wire, v: Wire, p: Point)
    requires u.horizontal == v.horizontal && HasStep(u, p) && HasStep(v, p)
    ensures Overlaps(u, v)
  {
    OverlapsSharedStep(u, v);
  }

  /** A wire of the orientation whose unit steps are all steps of another
      lies within it. */
  lemma StepsWithin(m: Wire, e: Wire)
    requires m.horizontal == e.horizontal && forall p :: HasStep(m, p) ==> HasStep(e, p)
    ensures Wires.IsWithin(m, e)
  {
    forall q | OnWire(m, q)
      ensures OnWire(e, q)
    {
      if q == End(m) {
        assert HasStep(m, Along(Start(m), m.horizontal, m.length - 1));
      } else {
        assert HasStep(m, q);
      }
    }
    IsWithinPoints(m, e);
  }

  /** A wire within another has no unit step outside it. */
  lemma WithinSteps(m: Wire, e: Wire)
    requires Wires.IsWithin(m, e)
    ensures m.horizontal == e.horizontal && forall p :: HasStep(m, p) ==> HasStep(e, p)
  {
    IsWithinPoints(m, e);
  }

  /** A listed wire has an owning net. */
  lemma ListedOwned(links: seq<LinkWires>, w: Wire)
    requires Listed(links, w)
    ensures WireOwner(links, w).Some?
  {
    var j :| 0 <= j < |links| && w in links[j].wires;
    assert InNet(links[j], WireConnection(w, Point(0, 0)));
  }

  /** A listed wire covering the unit step from `p` has a connection at
      `p`. */
  lemma ConnectionAt(v: Wire, p: Point) returns (c: Connection)
    requires OnWire(v, p)
    ensures c in WireConnections(v) && Position(c) == p && c.WireConnection? && c.wire == v
  {
    PointsOnWire(v, p);
    var i :| 0 <= i < |Points(v)| && Points(v)[i] == p;
    c := WireConnections(v)[i];
  }

  /** The wires that may take a wire's place: of its orientation, other
      than it, inside its steps, and overlapping none of each other. */
  ghost predicate Parts(w: Wire, ws: seq<Wire>)
  {
    && (forall u | u in ws :: u.horizontal == w.horizontal && u != w && forall p :: HasStep(u, p) ==> HasStep(w, p))
    && (forall u, v | u in ws && v in ws && u != v :: !Overlaps(u, v))
  }

  /** The wires replacing the one the scan breaks on are parts of it. */
  lemma ReplacingParts(e: Wire, w: Wire)
    requires Clashes(w, e) && w != e && !Wires.IsWithin(w, e)
    ensures Parts(w, Replacing(e, w))
  {
    ReplacingCovers(e, w);
    if Wires.IsWithin(e, w) {
      ContainedParts(e, w);
    } else {
      OverlapParts(e, w);
    }
  }

  /** When the scanned wire lies within the one met: the pieces outside it
      and its copy. */
  lemma ContainedParts(e: Wire, w: Wire)
    requires Clashes(w, e) && w != e && !Wires.IsWithin(w, e) && Wires.IsWithin(e, w)
    ensures Parts(w, Replacing(e, w))
  {
    ReplacingCovers(e, w);
    var ws := Replacing(e, w);
    var pieces := Splices.SpliceWire(w, e).value;
    assert ws == pieces + [e];
    WithinSteps(e, w);
    StartStep(e);
    forall u | u in ws
      ensures u != w
    {
      if u != e {
        var i :| 0 <= i < |pieces| && pieces[i] == u;
        assert !HasStep(u, Start(e));
      }
    }
    forall u, v | u in ws && v in ws && u != v
      ensures !Overlaps(u, v)
    {
      OverlapsSharedStep(u, v);
    }
  }

  /** When the two overlap partly: the shared middle and the part of the
      met wire outside the scanned one. */
  lemma OverlapParts(e: Wire, w: Wire)
    requires Clashes(w, e) && w != e && !Wires.IsWithin(w, e) && !Wires.IsWithin(e, w)
    ensures Parts(w, Replacing(e, w))
  {
    ReplacingCovers(e, w);
    OverlapSplits(e, w);
    var ws := Replacing(e, w);
    var t := Splices.SpliceOverlappingWire(e, w).value;
    assert ws == [t.middle, t.third];
    StartStep(t.middle);
    StartStep(t.third);
    assert Splices.ThreeWay(t, e, w, Start(t.middle));
    assert Splices.ThreeWay(t, e, w, Start(t.third));
    OverlapsSharedStep(t.middle, t.third);
    forall p
      ensures !(HasStep(t.middle, p) && HasStep(t.third, p))
    {
      assert Splices.ThreeWay(t, e, w, p);
    }
  }

  /** The listed wire `w` taken out of its net and the wires `ws` put
      into that net in its place. */
  function Replaced(b: Board, w: Wire, ws: seq<Wire>): (r: Board)
    requires Listed(b.links, w)
    ensures Frame(b, r)
    ensures WireOwner(b.links, w).Some?
    ensures r == Wiring.PutAll(TakeWire(b, w), WireOwner(b.links, w).value, ws)
  {
    ListedOwned(b.links, w);
    Wiring.PutAll(TakeWire(b, w), WireOwner(b.links, w).value, ws)
  }

  /** With no wire in two nets, the replacement lists exactly the other
      wires and the new ones. */
  lemma ReplacedListed(b: Board, w: Wire, ws: seq<Wire>)
    requires Listed(b.links, w) && Unshared(b.links)
    ensures forall v :: Listed(Replaced(b, w, ws).links, v) <==> (Listed(b.links, v) && v != w) || v in ws
    ensures forall u :: Seated(Replaced(b, w, ws).links, u) <==> Seated(b.links, u)
  {
    var r := Replaced(b, w, ws);
    var k := WireOwner(b.links, w).value;
    ReplaceLists(b, w, ws);
  }

  /** Parts of a listed wire on a board without overlaps are listed
      nowhere. */
  lemma PartsFresh(b: Board, w: Wire, ws: seq<Wire>)
    requires Rejoining.NoOverlap(b) && Listed(b.links, w) && Parts(w, ws)
    ensures forall u | u in ws :: !Listed(b.links, u)
  {
    forall u | u in ws
      ensures !Listed(b.links, u)
    {
      StartStep(u);
      SharedStep(u, w, Start(u));
    }
  }

  /** Replacing a wire by parts of it keeps no two nets sharing a wire. */
  lemma ReplacedUnshared(b: Board, w: Wire, ws: seq<Wire>)
    requires Listed(b.links, w) && Unshared(b.links) && Rejoining.NoOverlap(b) && Parts(w, ws)
    ensures Unshared(Replaced(b, w, ws).links)
  {
    var r := Replaced(b, w, ws);
    var k := WireOwner(b.links, w).value;
    PartsFresh(b, w, ws);
  }

  /** Replacing a wire by parts of it keeps no two listed wires
      overlapping. */
  lemma ReplacedNoOverlap(b: Board, w: Wire, ws: seq<Wire>)
    requires Listed(b.links, w) && Unshared(b.links) && Rejoining.NoOverlap(b) && Parts(w, ws)
    ensures Rejoining.NoOverlap(Replaced(b, w, ws))
  {
    var r := Replaced(b, w, ws);
    ReplacedListed(b, w, ws);
    forall v, u | Listed(r.links, v) && Listed(r.links, u) && v != u
      ensures !Overlaps(v, u)
    {
      OverlapsSharedStep(v, u);
      if Overlaps(v, u) {
        var p :| HasStep(v, p) && HasStep(u, p);
        if v in ws && u !in ws {
          SharedStep(w, u, p);
        } else if u in ws && v !in ws {
          SharedStep(w, v, p);
          OverlapsSharedStep(w, v);
        }
      }
    }
  }

  /** Replacing a wire outside `gone` by parts of it keeps the index
      filing exactly the listed wires outside `gone`. */
  lemma ReplacedKept(b: Board, gone: set<Wire>, w: Wire, ws: seq<Wire>)
    requires Kept(b, gone) && Listed(b.links, w) && w !in gone && Parts(w, ws)
    ensures Kept(Replaced(b, w, ws), gone)
  {
    var r := Replaced(b, w, ws);
    var k := WireOwner(b.links, w).value;
    ReplacedListed(b, w, ws);
    ReplacedUnshared(b, w, ws);
    ReplacedNoOverlap(b, w, ws);
    PartsFresh(b, w, ws);
    assert forall p: Point, d :: Filed(r.index, p, d) <==>
      (Filed(b.index, p, d) && d !in WireConnections(w)) || (Position(d) == p && exists u | u in ws :: d in WireConnections(u));
    forall p: Point, c | Filed(r.index, p, c) && c.WireConnection?
      ensures c in WireConnections(c.wire) && Listed(r.links, c.wire) && c.wire !in gone
    {
      if !(Filed(b.index, p, c) && c !in WireConnections(w)) {
        var u :| u in ws && c in WireConnections(u);
      }
    }
    forall v, c | Listed(r.links, v) && v !in gone && c in WireConnections(v)
      ensures Filed(r.index, Position(c), c)
    {
    }
  }

  /** The wires dropped while scanning: those marked before the scan and
      those marked by it so far. */
  function Hidden(gone: set<Wire>, marked: seq<Wire>): (r: set<Wire>)
    ensures forall v :: v in r <==> v in gone || v in marked
  {
    gone + (set m | m in marked)
  }

  /** What the scan over `e` keeps true: the board is kept, and every wire
      it marked lies within `e` and is still listed. */
  ghost predicate ScanOk(s: Scan, e: Wire, gone: set<Wire>)
  {
    Kept(s.board, gone) && forall m | m in s.marked :: Wires.IsWithin(m, e) && Listed(s.board.links, m)
  }

  /** A break on a listed wire leaves the board alone when the wire is
      within the scanned one, and otherwise replaces the wire. */
  lemma StepBoard(s: Scan, e: Wire, w: Wire)
    requires Clashes(w, e) && Listed(s.board.links, w)
    ensures w == e || Wires.IsWithin(w, e) ==> Step(s, e, w).board == s.board
    ensures !(w == e || Wires.IsWithin(w, e)) ==> Step(s, e, w).board == Replaced(s.board, w, Replacing(e, w))
  {
    ListedOwned(s.board.links, w);
  }

  /** The marked wire lies within the scanned one. */
  lemma MarkedWithin(e: Wire, w: Wire)
    requires Clashes(w, e)
    ensures Wires.IsWithin(Marked(e, w), e)
  {
    StepCuts(e, w);
    if !(w == e || Wires.IsWithin(w, e) || Wires.IsWithin(e, w)) {
      OverlapSplits(e, w);
    }
    StepsWithin(Marked(e, w), e);
  }

  /** A break on a listed wire outside `gone` keeps the scan's invariant. */
  lemma StepOk(s: Scan, e: Wire, w: Wire, gone: set<Wire>)
    requires ScanOk(s, e, gone) && Clashes(w, e) && Listed(s.board.links, w) && w !in gone
    ensures ScanOk(Step(s, e, w), e, gone)
  {
    var r := Step(s, e, w);
    StepBoard(s, e, w);
    MarkedWithin(e, w);
    if !(w == e || Wires.IsWithin(w, e)) {
      ReplacingParts(e, w);
      ReplacingCovers(e, w);
      ReplacedKept(s.board, gone, w, Replacing(e, w));
      ReplacedListed(s.board, w, Replacing(e, w));
    }
  }

  /** A break drops from view only what the scanned wire covers, and
      draws nothing anew. */
  lemma StepShown(s: Scan, e: Wire, w: Wire, gone: set<Wire>)
    requires ScanOk(s, e, gone) && Clashes(w, e) && Listed(s.board.links, w) && w !in gone
    ensures var r := Step(s, e, w);
      && (forall p, h | Shown(r.board, Hidden(gone, r.marked), p, h) :: Shown(s.board, Hidden(gone, s.marked), p, h))
      && (forall p, h | Shown(s.board, Hidden(gone, s.marked), p, h) && !(h == e.horizontal && HasStep(e, p)) ::
            Shown(r.board, Hidden(gone, r.marked), p, h))
  {
    var r := Step(s, e, w);
    var x, x1 := Hidden(gone, s.marked), Hidden(gone, r.marked);
    StepBoard(s, e, w);
    MarkedWithin(e, w);
    WithinSteps(Marked(e, w), e);
    if !(w == e || Wires.IsWithin(w, e)) {
      var ws := Replacing(e, w);
      ReplacingParts(e, w);
      ReplacingCovers(e, w);
      ReplacedListed(s.board, w, ws);
      PartsFresh(s.board, w, ws);
      forall p, h | Shown(r.board, x1, p, h)
        ensures Shown(s.board, x, p, h)
      {
        var v :| Listed(r.board.links, v) && v !in x1 && v.horizontal == h && HasStep(v, p);
        if v in ws {
          assert w !in s.marked;
          assert Listed(s.board.links, w) && w !in x && w.horizontal == h && HasStep(w, p);
        }
      }
      forall p, h | Shown(s.board, x, p, h) && !(h == e.horizontal && HasStep(e, p))
        ensures Shown(r.board, x1, p, h)
      {
        var v :| Listed(s.board.links, v) && v !in x && v.horizontal == h && HasStep(v, p);
        if v == w {
          var u :| u in ws && HasStep(u, p);
          assert u !in x1;
        } else {
          assert v !in x1;
        }
      }
    } else {
      forall p, h | Shown(s.board, x, p, h) && !(h == e.horizontal && HasStep(e, p))
        ensures Shown(r.board, x1, p, h)
      {
        var v :| Listed(s.board.links, v) && v !in x && v.horizontal == h && HasStep(v, p);
        assert v !in x1;
      }
    }
  }

  /** After a break, a step of the scanned wire is either out of view,
      when the wire met covers it, or covered by a queued piece. */
  lemma StepErases(s: Scan, e: Wire, w: Wire, gone: set<Wire>, p: Point)
    requires ScanOk(s, e, gone) && Clashes(w, e) && Listed(s.board.links, w) && w !in gone
    requires HasStep(e, p)
    ensures var r := Step(s, e, w);
      !Shown(r.board, Hidden(gone, r.marked), p, e.horizontal) || Covered(r.todo, p, e.horizontal)
  {
    var r := Step(s, e, w);
    StepCuts(e, w);
    StepOk(s, e, w, gone);
    var m := Marked(e, w);
    if HasStep(w, p) {
      assert HasStep(m, p) && Listed(r.board.links, m);
      MarkedWithin(e, w);
      WithinSteps(m, e);
      forall v | Listed(r.board.links, v) && v.horizontal == e.horizontal && HasStep(v, p)
        ensures v == m
      {
        SharedStep(v, m, p);
      }
    } else {
      var x :| x in Queued(e, w) && HasStep(x.wire, p);
      assert x in r.todo;
    }
  }

  /** A bucket with no wire clashing with the scanned one: nothing of its
      orientation is drawn over the step from that point. */
  lemma PickNone(b: Board, gone: set<Wire>, e: Wire, p: Point)
    requires Kept(b, gone) && HasStep(e, p)
    requires Pick(GetConnections(b.index, p.x, p.y), e).None?
    ensures !Shown(b, gone, p, e.horizontal)
  {
    forall v | Listed(b.links, v) && v !in gone && v.horizontal == e.horizontal && HasStep(v, p)
      ensures false
    {
      var c := ConnectionAt(v, p);
      assert Filed(b.index, Position(c), c);
      SharedStep(v, e, p);
      ClashesIffOverlaps(v, e);
    }
  }

  /** The wire the scan breaks on is listed and not yet gone. */
  lemma PickSome(b: Board, gone: set<Wire>, e: Wire, p: Point)
    requires Kept(b, gone)
    requires Pick(GetConnections(b.index, p.x, p.y), e).Some?
    ensures var w := Pick(GetConnections(b.index, p.x, p.y), e).value;
      Clashes(w, e) && Listed(b.links, w) && w !in gone
  {
    var cs := GetConnections(b.index, p.x, p.y);
    var i :| 0 <= i < |cs| && cs[i].WireConnection? && cs[i].wire == Pick(cs, e).value && Clashes(cs[i].wire, e);
    assert Filed(b.index, p, cs[i]);
  }

  /** Board `b`, without the wires of `xb`, draws nothing that `a`,
      without those of `xa`, did not. */
  ghost predicate NothingNew(a: Board, xa: set<Wire>, b: Board, xb: set<Wire>)
  {
    forall p, h | Shown(b, xb, p, h) :: Shown(a, xa, p, h)
  }

  /** Whatever `a` drew off the steps of `e` in its orientation, `b`
      still draws. */
  ghost predicate KeepsOff(a: Board, xa: set<Wire>, b: Board, xb: set<Wire>, e: Wire)
  {
    forall p, h | Shown(a, xa, p, h) && !(h == e.horizontal && HasStep(e, p)) :: Shown(b, xb, p, h)
  }

  /** The step from `p` is out of view or covered by an element still to
      remove. */
  ghost predicate Settled(b: Board, x: set<Wire>, todo: seq<Element>, p: Point, h: bool)
  {
    !Shown(b, x, p, h) || Covered(todo, p, h)
  }

  /** The steps of `e` from its `i`th on are settled. */
  ghost predicate PassedFrom(r: Scan, gone: set<Wire>, e: Wire, i: nat)
  {
    forall j | i <= j < e.length :: Settled(r.board, Hidden(gone, r.marked), r.todo, Along(Point(e.x, e.y), e.horizontal, j), e.horizontal)
  }

  /** A settled step stays settled while nothing new is drawn and the
      elements to remove only grow. */
  lemma SettledStays(a: Board, xa: set<Wire>, ta: seq<Element>, b: Board, xb: set<Wire>, tb: seq<Element>, p: Point, h: bool)
    requires Settled(a, xa, ta, p, h) && NothingNew(a, xa, b, xb)
    requires forall x | x in ta :: x in tb
    ensures Settled(b, xb, tb, p, h)
  {
    if Covered(ta, p, h) {
      var x :| x in ta && x.WireElement? && x.wire.horizontal == h && HasStep(x.wire, p);
      assert x in tb;
    }
  }

  /** A break, in the terms of the scan's invariant. */
  lemma StepFacts(s: Scan, e: Wire, w: Wire, gone: set<Wire>, p: Point)
    requires ScanOk(s, e, gone) && Clashes(w, e) && Listed(s.board.links, w) && w !in gone
    requires HasStep(e, p)
    ensures var s1 := Step(s, e, w);
      && ScanOk(s1, e, gone)
      && NothingNew(s.board, Hidden(gone, s.marked), s1.board, Hidden(gone, s1.marked))
      && KeepsOff(s.board, Hidden(gone, s.marked), s1.board, Hidden(gone, s1.marked), e)
      && Settled(s1.board, Hidden(gone, s1.marked), s1.todo, p, e.horizontal)
      && (forall x | x in s.todo :: x in s1.todo)
      && (forall x | x in s1.todo && x !in s.todo :: x.WireElement? && Wires.IsWithin(x.wire, e))
  {
    StepOk(s, e, w, gone);
    StepShown(s, e, w, gone);
    StepErases(s, e, w, gone, p);
  }

  /** What the scan from the `i`th point of `e` promises about its result
      `r`, starting from `s`. */
  ghost predicate ScanGood(s: Scan, r: Scan, e: Wire, i: nat, gone: set<Wire>)
  {
    && ScanOk(r, e, gone)
    && NothingNew(s.board, Hidden(gone, s.marked), r.board, Hidden(gone, r.marked))
    && KeepsOff(s.board, Hidden(gone, s.marked), r.board, Hidden(gone, r.marked), e)
    && PassedFrom(r, gone, e, i)
    && (forall x | x in s.todo :: x in r.todo)
    && (forall x | x in r.todo && x !in s.todo :: x.WireElement? && Wires.IsWithin(x.wire, e))
  }

  /** One round of the scan, then the rest: the facts compose. */
  lemma ScanCompose(s: Scan, s1: Scan, r: Scan, e: Wire, i: nat, gone: set<Wire>)
    requires i < e.length
    requires NothingNew(s.board, Hidden(gone, s.marked), s1.board, Hidden(gone, s1.marked))
    requires KeepsOff(s.board, Hidden(gone, s.marked), s1.board, Hidden(gone, s1.marked), e)
    requires Settled(s1.board, Hidden(gone, s1.marked), s1.todo, Along(Point(e.x, e.y), e.horizontal, i), e.horizontal)
    requires forall x | x in s.todo :: x in s1.todo
    requires forall x | x in s1.todo && x !in s.todo :: x.WireElement? && Wires.IsWithin(x.wire, e)
    requires ScanGood(s1, r, e, i + 1, gone)
    ensures ScanGood(s, r, e, i, gone)
  {
    SettledStays(s1.board, Hidden(gone, s1.marked), s1.todo, r.board, Hidden(gone, r.marked), r.todo,
      Along(Point(e.x, e.y), e.horizontal, i), e.horizontal);
  }

  /** A round of the scan at a point whose bucket has no clashing wire. */
  lemma ScanFromNone(s: Scan, e: Wire, i: nat)
    requires i < e.length
    requires var p := Along(Point(e.x, e.y), e.horizontal, i); Pick(GetConnections(s.board.index, p.x, p.y), e).None?
    ensures ScanFrom(s, e, i) == ScanFrom(s, e, i + 1)
  {
  }

  /** A round of the scan at a point whose bucket has a clashing wire. */
  lemma ScanFromSome(s: Scan, e: Wire, i: nat)
    requires i < e.length
    requires var p := Along(Point(e.x, e.y), e.horizontal, i); Pick(GetConnections(s.board.index, p.x, p.y), e).Some?
    ensures var p := Along(Point(e.x, e.y), e.horizontal, i);
      ScanFrom(s, e, i) == ScanFrom(Step(s, e, Pick(GetConnections(s.board.index, p.x, p.y), e).value), e, i + 1)
  {
  }

  /** The scan over `e` from its `i`th point on keeps the invariant, draws
      nothing anew, drops from view only steps of `e`, settles each of the
      steps it passes, and queues only pieces of `e`. */
  lemma {:induction false} ScanErases(s: Scan, e: Wire, i: nat, gone: set<Wire>)
    requires ScanOk(s, e, gone)
    ensures ScanGood(s, ScanFrom(s, e, i), e, i, gone)
    decreases e.length - i
  {
    if i < e.length {
      var p := Along(Point(e.x, e.y), e.horizontal, i);
      var o := Pick(GetConnections(s.board.index, p.x, p.y), e);
      if o.None? {
        ScanErases(s, e, i + 1, gone);
        ScanPassNone(s, e, i, gone);
      } else {
        var s1 := Step(s, e, o.value);
        PickSome(s.board, gone, e, p);
        StepOk(s, e, o.value, gone);
        ScanErases(s1, e, i + 1, gone);
        ScanPassSome(s, e, i, gone);
      }
    } else {
      ScanEnd(s, e, i, gone);
    }
  }

  /** A round that finds no clashing wire, then the rest of the scan. */
  lemma ScanPassNone(s: Scan, e: Wire, i: nat, gone: set<Wire>)
    requires ScanOk(s, e, gone) && i < e.length
    requires var p := Along(Point(e.x, e.y), e.horizontal, i); Pick(GetConnections(s.board.index, p.x, p.y), e).None?
    requires ScanGood(s, ScanFrom(s, e, i + 1), e, i + 1, gone)
    ensures ScanGood(s, ScanFrom(s, e, i), e, i, gone)
  {
    var p := Along(Point(e.x, e.y), e.horizontal, i);
    assert HasStep(e, p);
    PickNone(s.board, gone, e, p);
    ScanCompose(s, s, ScanFrom(s, e, i + 1), e, i, gone);
    ScanFromNone(s, e, i);
  }

  /** A round that breaks a clashing wire, then the rest of the scan. */
  lemma ScanPassSome(s: Scan, e: Wire, i: nat, gone: set<Wire>)
    requires ScanOk(s, e, gone) && i < e.length
    requires var p := Along(Point(e.x, e.y), e.horizontal, i); Pick(GetConnections(s.board.index, p.x, p.y), e).Some?
    requires var p := Along(Point(e.x, e.y), e.horizontal, i);
      var s1 := Step(s, e, Pick(GetConnections(s.board.index, p.x, p.y), e).value);
      ScanGood(s1, ScanFrom(s1, e, i + 1), e, i + 1, gone)
    ensures ScanGood(s, ScanFrom(s, e, i), e, i, gone)
  {
    var p := Along(Point(e.x, e.y), e.horizontal, i);
    assert HasStep(e, p);
    var w := Pick(GetConnections(s.board.index, p.x, p.y), e).value;
    PickSome(s.board, gone, e, p);
    var s1 := Step(s, e, w);
    StepFacts(s, e, w, gone, p);
    ScanCompose(s, s1, ScanFrom(s1, e, i + 1), e, i, gone);
    ScanFromSome(s, e, i);
  }

  /** Past the last point the scan returns what it was given. */
  lemma ScanEnd(s: Scan, e: Wire, i: nat, gone: set<Wire>)
    requires ScanOk(s, e, gone) && i >= e.length
    ensures ScanGood(s, ScanFrom(s, e, i), e, i, gone)
  {
    assert ScanFrom(s, e, i) == s;
  }

  /** Detaching a port keeps every wire listed and no wire in two nets. */
  lemma DetachNetWires(links: seq<LinkWires>, pc: PortConn)
    ensures forall v :: Listed(Placement.DetachNet(links, pc), v) <==> Listed(links, v)
    ensures Unshared(links) ==> Unshared(Placement.DetachNet(links, pc))
  {
    Placement.DetachListed(links, pc);
    var o := Owner(links, PortConnection(pc));
    if Unshared(links) && o.Some? && IsEmpty(RemovePort(links[o.value], pc)) {
      RemoveAtUnshared(links, o.value);
    }
  }

  /** Dropping a net keeps no wire in two nets. */
  lemma RemoveAtUnshared(links: seq<LinkWires>, k: nat)
    requires k < |links| && Unshared(links)
    ensures Unshared(RemoveAt(links, k))
  {
    var r := RemoveAt(links, k);
    forall i, j, v | 0 <= i < j < |r| && v in r[i].wires
      ensures v !in r[j].wires
    {
      var i1 := if i < k then i else i + 1;
      var j1 := if j < k then j else j + 1;
      assert r[i] == links[i1] && r[j] == links[j1] && i1 < j1;
    }
  }

  /** Detaching ports one by one keeps every wire listed and no wire in
      two nets. */
  lemma {:induction false} DetachNetsWires(links: seq<LinkWires>, ps: seq<PortConn>)
    ensures forall v :: Listed(Placement.DetachNets(links, ps), v) <==> Listed(links, v)
    ensures Unshared(links) ==> Unshared(Placement.DetachNets(links, ps))
    decreases |ps|
  {
    if ps != [] {
      DetachNetWires(links, ps[0]);
      DetachNetsWires(Placement.DetachNet(links, ps[0]), ps[1..]);
    }
  }

  /** `removeComponent` touches neither wires nor their connections. */
  lemma RemoveComponentKept(b: Board, c: Peer, fromList: bool, gone: set<Wire>)
    requires Kept(b, gone)
    ensures var r := Placement.RemoveComponent(b, c, fromList);
      Kept(r, gone) && forall v :: Listed(r.links, v) <==> Listed(b.links, v)
  {
    if c in b.components {
      var r := Placement.RemoveComponent(b, c, fromList);
      DetachNetsWires(b.links, PortConns(c));
      assert r.links == Placement.DetachNets(b.links, PortConns(c));
      assert forall p: Point, d :: Filed(r.index, p, d) <==> (Filed(b.index, p, d) && !(d.PortConnection? && d.pc in PortConns(c)));
    }
  }

  /** Dropping the marked wires' connections at the end of a scan keeps
      the board, with the marked wires gone. */
  lemma UnfileKept(s: Scan, e: Wire, gone: set<Wire>)
    requires ScanOk(s, e, gone)
    ensures Kept(s.board.(index := UnfileWires(s.board.index, s.marked)), Hidden(gone, s.marked))
  {
    var b1 := s.board.(index := UnfileWires(s.board.index, s.marked));
    var x := Hidden(gone, s.marked);
    forall p: Point, c | Filed(b1.index, p, c) && c.WireConnection?
      ensures c in WireConnections(c.wire) && Listed(b1.links, c.wire) && c.wire !in x
    {
      if c.wire in s.marked {
        assert c in WireConnections(c.wire);
      }
    }
    forall v, c | Listed(b1.links, v) && v !in x && c in WireConnections(v)
      ensures Filed(b1.index, Position(c), c)
    {
      assert Filed(s.board.index, Position(c), c);
      forall w | w in s.marked
        ensures c !in WireConnections(w)
      {
      }
    }
  }

  /** Every unit step of a wire is the step from one of its first
      `length` points. */
  lemma StepIndex(e: Wire, p: Point) returns (j: nat)
    requires HasStep(e, p)
    ensures j < e.length && p == Along(Point(e.x, e.y), e.horizontal, j)
  {
    j := if e.horizontal then p.x - e.x else p.y - e.y;
  }

  /** What the loop of `removeElements` keeps true, for elements `es`
      removed from board `b0`: the board is kept; every step the elements
      cover is settled; everything else `b0` drew is still drawn; nothing
      is drawn anew; and the elements still to remove cover only steps
      of `es`. */
  ghost predicate Tracking(b0: Board, es: seq<Element>, b: Board, gone: set<Wire>, todo: seq<Element>)
  {
    && Kept(b, gone)
    && (forall p, h | Covered(es, p, h) :: Settled(b, gone, todo, p, h))
    && (forall p, h | Shown(b0, {}, p, h) && !Covered(es, p, h) :: Shown(b, gone, p, h))
    && NothingNew(b0, {}, b, gone)
    && (forall p, h | Covered(todo, p, h) :: Covered(es, p, h))
  }

  /** One round of the loop: the board, the marked wires and the
      elements still to remove after it. */
  function Round(b: Board, todo: seq<Element>, gone: set<Wire>, fromList: bool): (Board, set<Wire>, seq<Element>)
    requires todo != []
  {
    match todo[0]
    case ComponentElement(c) => (Placement.RemoveComponent(b, c, fromList), gone, todo[1..])
    case WireElement(e) =>
      var s := ScanFrom(Scan(b, todo[1..], []), e, 0);
      (s.board.(index := UnfileWires(s.board.index, s.marked)), gone + (set v | v in s.marked), s.todo)
  }

  /** A component taken from the front of the loop. */
  lemma LoopComponent(b0: Board, es: seq<Element>, b: Board, gone: set<Wire>, todo: seq<Element>, fromList: bool)
    requires Tracking(b0, es, b, gone, todo) && todo != [] && todo[0].ComponentElement?
    ensures var (b1, gone1, todo1) := Round(b, todo, gone, fromList); Tracking(b0, es, b1, gone1, todo1)
  {
    assert Round(b, todo, gone, fromList) == (Placement.RemoveComponent(b, todo[0].peer, fromList), gone, todo[1..]);
    var r := Placement.RemoveComponent(b, todo[0].peer, fromList);
    RemoveComponentKept(b, todo[0].peer, fromList, gone);
    assert forall p, h :: Shown(r, gone, p, h) <==> Shown(b, gone, p, h);
    forall p, h | Covered(todo, p, h)
      ensures Covered(todo[1..], p, h)
    {
      var x :| x in todo && x.WireElement? && x.wire.horizontal == h && HasStep(x.wire, p);
      assert x != todo[0];
      assert x in todo[1..];
    }
    forall p, h | Covered(todo[1..], p, h)
      ensures Covered(todo, p, h)
    {
      var x :| x in todo[1..] && x.WireElement? && x.wire.horizontal == h && HasStep(x.wire, p);
      assert x in todo;
    }
  }

  /** What the scan of the wire at the front of the loop hands on: the
      board `a` after it, with the wires of `x` dropped. */
  ghost predicate Scanned(b: Board, gone: set<Wire>, todo: seq<Element>, e: Wire, s: Scan, a: Board, x: set<Wire>)
  {
    && a.links == s.board.links
    && x == Hidden(gone, s.marked)
    && NothingNew(b, gone, s.board, x)
    && KeepsOff(b, gone, s.board, x, e)
    && PassedFrom(s, gone, e, 0)
    && (forall y | y in todo :: y in s.todo)
    && (forall y | y in s.todo && y !in todo :: y.WireElement? && Wires.IsWithin(y.wire, e))
  }

  /** After the scan, the steps the elements cover are settled. */
  lemma ScannedSettles(b0: Board, es: seq<Element>, b: Board, gone: set<Wire>, todo: seq<Element>, s: Scan, a: Board, x: set<Wire>)
    requires Tracking(b0, es, b, gone, todo) && todo != [] && todo[0].WireElement?
    requires Scanned(b, gone, todo[1..], todo[0].wire, s, a, x)
    ensures forall p, h | Covered(es, p, h) :: Settled(a, x, s.todo, p, h)
  {
    var e := todo[0].wire;
    assert forall p, h :: Shown(a, x, p, h) <==> Shown(s.board, x, p, h);
    forall p, h | Covered(es, p, h)
      ensures Settled(a, x, s.todo, p, h)
    {
      if Shown(b, gone, p, h) {
        var y :| y in todo && y.WireElement? && y.wire.horizontal == h && HasStep(y.wire, p);
        if y == todo[0] {
          var j := StepIndex(e, p);
          assert Settled(s.board, x, s.todo, Along(Point(e.x, e.y), e.horizontal, j), e.horizontal);
        } else {
          assert y in todo[1..];
          assert y in s.todo;
        }
      }
    }
  }

  /** After the scan, what the elements do not cover is still drawn. */
  lemma ScannedKeeps(b0: Board, es: seq<Element>, b: Board, gone: set<Wire>, todo: seq<Element>, s: Scan, a: Board, x: set<Wire>)
    requires Tracking(b0, es, b, gone, todo) && todo != [] && todo[0].WireElement?
    requires Scanned(b, gone, todo[1..], todo[0].wire, s, a, x)
    ensures forall p, h | Shown(b0, {}, p, h) && !Covered(es, p, h) :: Shown(a, x, p, h)
    ensures NothingNew(b0, {}, a, x)
  {
    var e := todo[0].wire;
    assert forall p, h :: Shown(a, x, p, h) <==> Shown(s.board, x, p, h);
    forall p, h | Shown(b0, {}, p, h) && !Covered(es, p, h)
      ensures Shown(a, x, p, h)
    {
      assert todo[0] in todo;
      assert !(h == e.horizontal && HasStep(e, p));
    }
  }

  /** After the scan, the elements still to remove cover only steps of
      `es`. */
  lemma ScannedCovers(b0: Board, es: seq<Element>, b: Board, gone: set<Wire>, todo: seq<Element>, s: Scan, a: Board, x: set<Wire>)
    requires Tracking(b0, es, b, gone, todo) && todo != [] && todo[0].WireElement?
    requires Scanned(b, gone, todo[1..], todo[0].wire, s, a, x)
    ensures forall p, h | Covered(s.todo, p, h) :: Covered(es, p, h)
  {
    var e := todo[0].wire;
    forall p, h | Covered(s.todo, p, h)
      ensures Covered(es, p, h)
    {
      var y :| y in s.todo && y.WireElement? && y.wire.horizontal == h && HasStep(y.wire, p);
      if y in todo[1..] {
        assert y in todo;
      } else {
        WithinSteps(y.wire, e);
        assert todo[0] in todo;
      }
    }
  }

  /** A wire taken from the front of the loop: its scan, then its marked
      wires' connections dropped. */
  lemma LoopWire(b0: Board, es: seq<Element>, b: Board, gone: set<Wire>, todo: seq<Element>, fromList: bool)
    requires Tracking(b0, es, b, gone, todo) && todo != [] && todo[0].WireElement?
    ensures var (b1, gone1, todo1) := Round(b, todo, gone, fromList); Tracking(b0, es, b1, gone1, todo1)
  {
    var e := todo[0].wire;
    var s0 := Scan(b, todo[1..], []);
    var s := ScanFrom(s0, e, 0);
    var a := s.board.(index := UnfileWires(s.board.index, s.marked));
    var x := Hidden(gone, s.marked);
    assert Hidden(gone, []) == gone;
    assert Round(b, todo, gone, fromList) == (a, x, s.todo);
    ScanErases(s0, e, 0, gone);
    UnfileKept(s, e, gone);
    assert Scanned(b, gone, todo[1..], e, s, a, x);
    ScannedSettles(b0, es, b, gone, todo, s, a, x);
    ScannedKeeps(b0, es, b, gone, todo, s, a, x);
    ScannedCovers(b0, es, b, gone, todo, s, a, x);
  }

  /** The loop is one round, then the rest. */
  lemma LoopRound(b: Board, todo: seq<Element>, gone: set<Wire>, fromList: bool, faults: map<nat, Fault>, fuel: nat)
    requires todo != [] && fuel > 0
    requires !(fromList && todo[0].ComponentElement? && todo[0].peer.id in faults)
    ensures var t := Round(b, todo, gone, fromList);
      Loop(b, todo, gone, fromList, faults, fuel) == Loop(t.0, t.2, t.1, fromList, faults, fuel - 1)
  {
  }

  /** Every round keeps the loop's invariant. */
  lemma RoundTracks(b0: Board, es: seq<Element>, b: Board, gone: set<Wire>, todo: seq<Element>, fromList: bool)
    requires Tracking(b0, es, b, gone, todo) && todo != []
    ensures var t := Round(b, todo, gone, fromList); Tracking(b0, es, t.0, t.1, t.2)
  {
    if todo[0].ComponentElement? {
      LoopComponent(b0, es, b, gone, todo, fromList);
    } else {
      LoopWire(b0, es, b, gone, todo, fromList);
    }
  }

  /** The whole loop keeps its invariant. */
  lemma {:induction false} LoopErases(b0: Board, es: seq<Element>, b: Board, gone: set<Wire>, todo: seq<Element>, fromList: bool, faults: map<nat, Fault>, fuel: nat)
    requires Tracking(b0, es, b, gone, todo)
    requires Loop(b, todo, gone, fromList, faults, fuel).Some?
    requires Loop(b, todo, gone, fromList, faults, fuel).value.fault.None?
    ensures var r := Loop(b, todo, gone, fromList, faults, fuel).value; Tracking(b0, es, r.board, r.gone, [])
    decreases fuel
  {
    if todo != [] {
      var t := Round(b, todo, gone, fromList);
      assert todo[0] in todo;
      LoopRound(b, todo, gone, fromList, faults, fuel);
      RoundTracks(b0, es, b, gone, todo, fromList);
      LoopErases(b0, es, t.0, t.1, t.2, fromList, faults, fuel - 1);
    }
  }

  /** `removeElements` on a board in order, with rejoining off: exactly
      the unit steps the removed wires cover, in each wire's orientation,
      stop being drawn, and the index still files exactly the listed
      wires, none overlapping another. */
  lemma RemoveElementsErases(b: Board, elements: seq<Element>, removeFromCircuit: bool, faults: map<nat, Fault>, fuel: nat)
    requires Orderly(b) && !b.rejoin
    requires RemoveElements(b, elements, removeFromCircuit, faults, fuel).Some?
    requires RemoveElements(b, elements, removeFromCircuit, faults, fuel).value.fault.None?
    ensures var r := RemoveElements(b, elements, removeFromCircuit, faults, fuel).value.board;
      && (forall p, h :: Rejoining.Drawn(r, p, h) <==> Rejoining.Drawn(b, p, h) && !Covered(elements, p, h))
      && Rejoining.IndexSound(r)
      && Rejoining.NoOverlap(r)
  {
    var r := RemoveElements(b, elements, removeFromCircuit, faults, fuel).value.board;
    var pass := Loop(b, elements, {}, removeFromCircuit, faults, fuel).value;
    var (b1, gone) := (pass.board, pass.gone);
    assert forall p, h :: Shown(b, {}, p, h) <==> Rejoining.Drawn(b, p, h);
    LoopErases(b, elements, b, {}, elements, removeFromCircuit, faults, fuel);
    assert r == b1.(links := Regroup(b1.links, gone));
    assert forall v :: Listed(r.links, v) <==> Listed(b1.links, v) && v !in gone;
    assert forall p, h :: Shown(b1, gone, p, h) <==> Rejoining.Drawn(r, p, h);
  }
}
