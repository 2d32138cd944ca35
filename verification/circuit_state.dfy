/** The per-state values on every net (CircuitState.kt and its inner
    LinkState).

    A link state records, for each participant port, the value it last pushed,
    the value last propagated from it onto the net and the value it last
    received. The source caches the merged value; the cache is invalidated
    on every change of a propagated value, so here it is recomputed.

    Calls out of this class are returned as data: notifications for the
    simulator as `Notice`s, and the values to deliver to components as
    `Delivery`s. A component's reaction to a delivery is a parameter that
    reports only whether the component threw; the values it pushes in turn
    touch only `lastPushed`, which nothing later in the same propagation reads. */
module CircuitStates {
  import opened Wrappers
  import opened WireValues
  import opened Netlist
  import opened OrderedSets

  // ----- merging many values -----

  /** `WireValue(n)` merged in turn with each value; the first failure stops. */
  function MergeAll(vals: seq<WireValue>, n: nat): Result<WireValue>
  {
    if |vals| == 0 then Success(Floating(n))
    else
      match MergeAll(vals[..|vals| - 1], n)
      case Failure(e) => Failure(e)
      case Success(acc) => Merge(acc, vals[|vals| - 1])
  }

  /** Two of the values drive one bit to different levels. */
  predicate Clash(vals: seq<WireValue>, n: nat)
  {
    exists a, b, k | a in vals && b in vals && 0 <= k < n && k < |a| && k < |b| :: Conflict(a[k], b[k])
  }

  /** The merged bit every value agrees to: a driven bit if any value drives
      position k, and Z only when every value floats there. */
  predicate Resolves(r: WireValue, vals: seq<WireValue>, n: nat)
    requires |r| == n
    requires forall v | v in vals :: |v| == n
  {
    forall k | 0 <= k < n ::
      && ((r[k] == Z) <==> (forall v | v in vals :: v[k] == Z))
      && (forall v | v in vals :: v[k] != Z ==> r[k] == v[k])
  }

  /** Merging equal-width values fails exactly on a clash, and always with a
      short circuit; otherwise it resolves every bit. */
  lemma {:induction false} MergeAllSpec(vals: seq<WireValue>, n: nat)
    requires forall v | v in vals :: |v| == n
    ensures MergeAll(vals, n).Success? <==> !Clash(vals, n)
    ensures MergeAll(vals, n).Failure? ==> MergeAll(vals, n).error == ShortCircuit
    ensures MergeAll(vals, n).Success? ==> |MergeAll(vals, n).value| == n && Resolves(MergeAll(vals, n).value, vals, n)
    decreases |vals|
  {
    if |vals| > 0 {
      var init, last := vals[..|vals| - 1], vals[|vals| - 1];
      assert forall v | v in init :: v in vals;
      MergeAllSpec(init, n);
      assert vals == init + [last];
      match MergeAll(init, n)
      case Failure(e) => {
        var a, b, k :| a in init && b in init && 0 <= k < n && k < |a| && k < |b| && Conflict(a[k], b[k]);
        assert a in vals && b in vals;
      }
      case Success(acc) => {
        assert MergeAll(vals, n) == MergeBits(acc, last);
        if Compatible(acc, last) {
          MergeStepSound(init, last, acc, n);
        } else {
          MergeStepClash(init, last, acc, n);
        }
      }
    }
  }

  /** One more merge that meets no conflict keeps the values clash-free and
      resolves every bit of them all. */
  lemma MergeStepSound(init: seq<WireValue>, last: WireValue, acc: WireValue, n: nat)
    requires forall v | v in init :: |v| == n
    requires |last| == n && |acc| == n
    requires !Clash(init, n) && Resolves(acc, init, n) && Compatible(acc, last)
    ensures !Clash(init + [last], n)
    ensures Resolves(MergeBits(acc, last).value, init + [last], n)
  {
    var vals := init + [last];
    forall a, b, k | a in vals && b in vals && 0 <= k < n && k < |a| && k < |b|
      ensures !Conflict(a[k], b[k])
    {
      if a in init && b in init {
      } else if a in init {
        if a[k] != Z {
          assert acc[k] == a[k];
        }
      } else if b in init {
        if b[k] != Z {
          assert acc[k] == b[k];
        }
      }
    }
    var r := MergeBits(acc, last).value;
    forall k | 0 <= k < n
      ensures (r[k] == Z) <==> (forall v | v in vals :: v[k] == Z)
      ensures forall v | v in vals :: v[k] != Z ==> r[k] == v[k]
    {
      forall v | v in vals && v[k] != Z
        ensures r[k] == v[k]
      {
        if v == last && acc[k] != Z {
          var u :| u in init && u[k] != Z;
          assert !Conflict(u[k], v[k]);
        }
      }
    }
  }

  /** A conflict between the merge so far and the next value is a clash
      between two of the values. */
  lemma MergeStepClash(init: seq<WireValue>, last: WireValue, acc: WireValue, n: nat)
    requires forall v | v in init :: |v| == n
    requires |last| == n && |acc| == n
    requires Resolves(acc, init, n) && !Compatible(acc, last)
    ensures Clash(init + [last], n)
  {
    var k :| 0 <= k < n && Conflict(acc[k], last[k]);
    var v :| v in init && v[k] != Z;
    assert acc[k] == v[k];
    assert v in init + [last] && last in init + [last];
  }

  /** Dropping values cannot create a clash. */
  lemma SubsetNoClash(small: seq<WireValue>, big: seq<WireValue>, n: nat)
    requires forall v | v in small :: v in big
    requires !Clash(big, n)
    ensures !Clash(small, n)
  {
    forall a, b, k | a in small && b in small && 0 <= k < n && k < |a| && k < |b|
      ensures !Conflict(a[k], b[k])
    {
      assert a in big && b in big;
    }
  }

  // ----- link states -----

  datatype PortInfo = PortInfo(lastPushed: WireValue, lastPropagated: WireValue, lastReceived: WireValue)

  datatype Slot = Slot(port: Port, info: PortInfo)

  /** The participants of one net in one circuit state, in the iteration
      order of the source's map. */
  datatype LinkState = LinkState(bitSize: nat, slots: seq<Slot>)

  /** The ports of the slots, in order. */
  function PortsOf(slots: seq<Slot>): (r: seq<Port>)
    ensures |r| == |slots|
    ensures forall i | 0 <= i < |slots| :: r[i] == slots[i].port
  {
    seq(|slots|, i requires 0 <= i < |slots| => slots[i].port)
  }

  predicate InfoWidth(info: PortInfo, n: nat)
  {
    |info.lastPushed| == n && |info.lastPropagated| == n && |info.lastReceived| == n
  }

  /** One slot per port, every value as wide as the net. */
  predicate WellFormed(ls: LinkState)
  {
    && Distinct(PortsOf(ls.slots))
    && forall i | 0 <= i < |ls.slots| :: InfoWidth(ls.slots[i].info, ls.bitSize)
  }

  /** The all-Z record a port starts with. */
  function FreshInfo(n: nat): PortInfo
  {
    PortInfo(Floating(n), Floating(n), Floating(n))
  }

  /** `LinkState(link)`: each participant of the link, with all-Z values of
      the link's width. */
  function NewLinkState(link: Netlist.Link): (r: LinkState)
    requires Distinct(link.participants)
    ensures WellFormed(r)
    ensures r.bitSize == link.bitSize
    ensures PortsOf(r.slots) == link.participants
    ensures forall i | 0 <= i < |r.slots| :: r.slots[i].info == PortInfo(Floating(link.bitSize), Floating(link.bitSize), Floating(link.bitSize))
  {
    var ps := link.participants;
    var info := FreshInfo(link.bitSize);
    var slots := seq(|ps|, i requires 0 <= i < |ps| => Slot(ps[i], info));
    assert forall i | 0 <= i < |ps| :: slots[i].port == ps[i] && slots[i].info == info;
    assert PortsOf(slots) == ps;
    assert InfoWidth(info, link.bitSize);
    LinkState(link.bitSize, slots)
  }

  /** The slot of a port, if it participates. */
  function Find(slots: seq<Slot>, p: Port): (r: Option<nat>)
    ensures r.Some? ==> r.value < |slots| && slots[r.value].port == p
    ensures r.None? <==> p !in PortsOf(slots)
  {
    if |slots| == 0 then None
    else if slots[0].port == p then Some(0)
    else
      match Find(slots[1..], p)
      case None =>
        assert PortsOf(slots) == [slots[0].port] + PortsOf(slots[1..]);
        None
      case Some(i) =>
        assert PortsOf(slots) == [slots[0].port] + PortsOf(slots[1..]);
        Some(i + 1)
  }

  /** `getLastPushed`: the port's record, or all-Z for a stranger. */
  function LastPushed(ls: LinkState, p: Port): (r: WireValue)
    ensures WellFormed(ls) ==> |r| == ls.bitSize
    ensures p !in PortsOf(ls.slots) ==> r == Floating(ls.bitSize)
  {
    match Find(ls.slots, p)
    case Some(i) => ls.slots[i].info.lastPushed
    case None => Floating(ls.bitSize)
  }

  /** `getLastReceived`: the port's record, or all-Z for a stranger. */
  function LastReceived(ls: LinkState, p: Port): (r: WireValue)
    ensures WellFormed(ls) ==> |r| == ls.bitSize
    ensures p !in PortsOf(ls.slots) ==> r == Floating(ls.bitSize)
  {
    match Find(ls.slots, p)
    case Some(i) => ls.slots[i].info.lastReceived
    case None => Floating(ls.bitSize)
  }

  /** The propagated values of every slot whose port is not `except`. */
  function Propagated(slots: seq<Slot>, except: Option<Port>): (r: seq<WireValue>)
    ensures forall v | v in r :: exists i | 0 <= i < |slots| :: slots[i].info.lastPropagated == v && Some(slots[i].port) != except
    ensures forall i | 0 <= i < |slots| && Some(slots[i].port) != except :: slots[i].info.lastPropagated in r
  {
    if |slots| == 0 then []
    else
      var rest := Propagated(slots[1..], except);
      assert forall v | v in rest :: exists i | 1 <= i < |slots| :: slots[i].info.lastPropagated == v && Some(slots[i].port) != except by {
        forall v | v in rest
          ensures exists i | 1 <= i < |slots| :: slots[i].info.lastPropagated == v && Some(slots[i].port) != except
        {
          var j :| 0 <= j < |slots[1..]| && slots[1..][j].info.lastPropagated == v && Some(slots[1..][j].port) != except;
          assert slots[j + 1] == slots[1..][j];
        }
      }
      assert forall i | 1 <= i < |slots| :: slots[i] == slots[1..][i - 1];
      if Some(slots[0].port) == except then rest else [slots[0].info.lastPropagated] + rest
  }

  lemma PropagatedWidths(ls: LinkState, except: Option<Port>)
    requires WellFormed(ls)
    ensures forall v | v in Propagated(ls.slots, except) :: |v| == ls.bitSize
  {
  }

  /** `mergedValue`: every participant's propagated value merged, from all-Z. */
  function MergedValue(ls: LinkState): Result<WireValue>
  {
    MergeAll(Propagated(ls.slots, None), ls.bitSize)
  }

  /** `getIncomingValue(p)`: the same merge without p's own value. */
  function Incoming(ls: LinkState, p: Port): Result<WireValue>
  {
    MergeAll(Propagated(ls.slots, Some(p)), ls.bitSize)
  }

  /** `isShortCircuit`: computing the merged value throws a short circuit
      (any other failure reads as false). */
  function IsShortCircuit(ls: LinkState): (r: bool)
    requires WellFormed(ls)
    ensures r <==> Clash(Propagated(ls.slots, None), ls.bitSize)
  {
    PropagatedWidths(ls, None);
    MergeAllSpec(Propagated(ls.slots, None), ls.bitSize);
    match MergedValue(ls)
    case Failure(e) => e == ShortCircuit
    case Success(_) => false
  }

  /** A net that merges without a short circuit delivers an incoming value to
      every participant: leaving one driver out cannot cause a conflict. */
  lemma IncomingOfSound(ls: LinkState, p: Port)
    requires WellFormed(ls) && MergedValue(ls).Success?
    ensures Incoming(ls, p).Success?
  {
    PropagatedWidths(ls, None);
    PropagatedWidths(ls, Some(p));
    MergeAllSpec(Propagated(ls.slots, None), ls.bitSize);
    MergeAllSpec(Propagated(ls.slots, Some(p)), ls.bitSize);
    forall v | v in Propagated(ls.slots, Some(p))
      ensures v in Propagated(ls.slots, None)
    {
    }
    SubsetNoClash(Propagated(ls.slots, Some(p)), Propagated(ls.slots, None), ls.bitSize);
  }

  // ----- propagate -----

  /** A value handed to a port's component. */
  datatype Delivery = Delivery(port: Port, value: WireValue)

  /** Slot s is due delivery d: its incoming value merges, is d's value and
      differs from what the port last received. */
  predicate Due(ls: LinkState, s: Slot, d: Delivery)
  {
    d.port == s.port && Incoming(ls, s.port) == Success(d.value) && d.value != s.info.lastReceived
  }

  /** The slot after the receive loop: the incoming value, when it merges,
      becomes the last received one. */
  function Received(ls: LinkState, s: Slot): Slot
  {
    match Incoming(ls, s.port)
    case Success(v) => Slot(s.port, s.info.(lastReceived := v))
    case Failure(_) => s
  }

  /** Slot s already holds its incoming value, or has none: it is due nothing. */
  predicate Settled(ls: LinkState, s: Slot)
  {
    Incoming(ls, s.port).Success? ==> Incoming(ls, s.port).value == s.info.lastReceived
  }

  /** The deliveries of the receive loop, in participant order. */
  function Deliveries(ls: LinkState, slots: seq<Slot>): (r: seq<Delivery>)
    ensures forall d | d in r :: exists s | s in slots :: Due(ls, s, d)
    ensures forall s, d | s in slots && Due(ls, s, d) :: d in r
    ensures (forall s | s in slots :: Settled(ls, s)) ==> r == []
  {
    if |slots| == 0 then []
    else
      var s := slots[0];
      var rest := Deliveries(ls, slots[1..]);
      assert forall x | x in slots[1..] :: x in slots;
      assert forall x | x in slots :: x == s || x in slots[1..];
      match Incoming(ls, s.port)
      case Success(v) =>
        assert forall d | Due(ls, s, d) :: d == Delivery(s.port, v);
        if v != s.info.lastReceived then [Delivery(s.port, v)] + rest else rest
      case Failure(_) => rest
  }

  /** The first exception other than a short circuit that a component throws
      while the deliveries are handed out. */
  function FirstException(ds: seq<Delivery>, react: Delivery -> Option<Fault>): (r: Option<Fault>)
    ensures r.Some? ==> r.value != ShortCircuit && exists i | 0 <= i < |ds| :: react(ds[i]) == r
    ensures r.None? <==> forall i | 0 <= i < |ds| :: react(ds[i]) == None || react(ds[i]) == Some(ShortCircuit)
  {
    if |ds| == 0 then None
    else if react(ds[0]).Some? && react(ds[0]).value != ShortCircuit then react(ds[0])
    else
      var r := FirstException(ds[1..], react);
      assert forall i | 1 <= i < |ds| :: ds[i] == ds[1..][i - 1];
      r
  }

  /** The receive loop of `propagate`: each participant's last received
      value becomes its incoming value wherever that merges. */
  function ReceiveAll(ls: LinkState): (r: LinkState)
    requires WellFormed(ls)
    ensures WellFormed(r) && r.bitSize == ls.bitSize && |r.slots| == |ls.slots|
    ensures PortsOf(r.slots) == PortsOf(ls.slots)
    ensures forall i | 0 <= i < |ls.slots| :: r.slots[i] == Received(ls, ls.slots[i])
  {
    var slots := seq(|ls.slots|, i requires 0 <= i < |ls.slots| => Received(ls, ls.slots[i]));
    assert PortsOf(slots) == PortsOf(ls.slots);
    forall i | 0 <= i < |slots|
      ensures InfoWidth(slots[i].info, ls.bitSize)
    {
      var p := ls.slots[i].port;
      if Incoming(ls, p).Success? {
        PropagatedWidths(ls, Some(p));
        MergeAllSpec(Propagated(ls.slots, Some(p)), ls.bitSize);
      }
    }
    LinkState(ls.bitSize, slots)
  }

  /** The exception `propagate` ends with: a component's exception first,
      then a short circuit met while merging or reported by a component,
      then the final check of the whole net. */
  function PropagateFault(ls: LinkState, ds: seq<Delivery>, react: Delivery -> Option<Fault>): (r: Option<Fault>)
    requires WellFormed(ls)
    ensures FirstException(ds, react).Some? ==> r == FirstException(ds, react)
    ensures FirstException(ds, react).None? ==>
      (r.Some? <==> (IsShortCircuit(ls) || exists i | 0 <= i < |ds| :: react(ds[i]) == Some(ShortCircuit)))
    ensures r.Some? && FirstException(ds, react).None? ==> r == Some(ShortCircuit)
  {
    var shortInLoop := exists i | 0 <= i < |ls.slots| :: Incoming(ls, ls.slots[i].port).Failure?;
    var shortInComponent := exists i | 0 <= i < |ds| :: react(ds[i]) == Some(ShortCircuit);
    var exc := FirstException(ds, react);
    assert shortInLoop ==> IsShortCircuit(ls) by {
      if shortInLoop {
        var i :| 0 <= i < |ls.slots| && Incoming(ls, ls.slots[i].port).Failure?;
        if MergedValue(ls).Success? {
          IncomingOfSound(ls, ls.slots[i].port);
        }
        PropagatedWidths(ls, None);
        MergeAllSpec(Propagated(ls.slots, None), ls.bitSize);
      }
    }
    if exc.Some? then exc
    else if shortInLoop || shortInComponent || IsShortCircuit(ls) then Some(ShortCircuit)
    else None
  }

  /** What a propagation leaves: the link state, the deliveries made and the
      exception it ends with. */
  datatype Propagation = Propagation(ls: LinkState, deliveries: seq<Delivery>, fault: Option<Fault>)

  /** `propagate`: every participant receives the merge of the others'
      values; those whose received value changed are notified. A component's
      exception outranks a short circuit, and the net is finally checked for
      a short circuit of its own. */
  function Propagate(ls: LinkState, react: Delivery -> Option<Fault>): (r: Propagation)
    requires WellFormed(ls)
    ensures WellFormed(r.ls) && r.ls.bitSize == ls.bitSize
    ensures PortsOf(r.ls.slots) == PortsOf(ls.slots)
    ensures forall i | 0 <= i < |ls.slots| ::
      && r.ls.slots[i].info.lastPushed == ls.slots[i].info.lastPushed
      && r.ls.slots[i].info.lastPropagated == ls.slots[i].info.lastPropagated
      && (Incoming(ls, ls.slots[i].port).Success? ==> r.ls.slots[i].info.lastReceived == Incoming(ls, ls.slots[i].port).value)
      && (Incoming(ls, ls.slots[i].port).Failure? ==> r.ls.slots[i].info.lastReceived == ls.slots[i].info.lastReceived)
    ensures forall d :: d in r.deliveries <==> exists s | s in ls.slots :: Due(ls, s, d)
    ensures (forall s | s in ls.slots :: Settled(ls, s)) ==> r.deliveries == []
    ensures r.fault == PropagateFault(ls, r.deliveries, react)
  {
    var ds := Deliveries(ls, ls.slots);
    Propagation(ReceiveAll(ls), ds, PropagateFault(ls, ds, react))
  }

  /** Propagating twice in a row delivers nothing the second time: every
      participant already holds its incoming value. */
  lemma PropagateSettles(ls: LinkState, react: Delivery -> Option<Fault>)
    requires WellFormed(ls)
    ensures Propagate(Propagate(ls, react).ls, react).deliveries == []
  {
    var ls' := Propagate(ls, react).ls;
    forall p
      ensures Incoming(ls', p) == Incoming(ls, p)
    {
      SamePropagated(ls.slots, ls'.slots, Some(p));
    }
    forall s | s in ls'.slots
      ensures Settled(ls', s)
    {
      var i :| 0 <= i < |ls'.slots| && ls'.slots[i] == s;
      assert PortsOf(ls'.slots)[i] == PortsOf(ls.slots)[i];
    }
  }

  /** Slot lists with the same ports and propagated values merge alike. */
  lemma {:induction false} SamePropagated(a: seq<Slot>, b: seq<Slot>, except: Option<Port>)
    requires |a| == |b|
    requires forall i | 0 <= i < |a| :: a[i].port == b[i].port && a[i].info.lastPropagated == b[i].info.lastPropagated
    ensures Propagated(a, except) == Propagated(b, except)
    decreases |a|
  {
    if |a| > 0 {
      SamePropagated(a[1..], b[1..], except);
    }
  }

  // ----- linking and unlinking -----

  lemma DistinctSnoc(a: seq<Port>, x: Port)
    requires Distinct(a) && x !in a
    ensures Distinct(a + [x])
  {
    forall i, j | 0 <= i < j < |a + [x]|
      ensures (a + [x])[i] != (a + [x])[j]
    {
      assert (a + [x])[i] == a[i];
      if j < |a| {
        assert (a + [x])[j] == a[j];
      }
    }
  }

  lemma DistinctTail(a: seq<Port>)
    requires Distinct(a) && |a| > 0
    ensures Distinct(a[1..]) && a[0] !in a[1..]
  {
    assert forall j | 0 <= j < |a| - 1 :: a[1..][j] == a[j + 1];
  }

  /** `participants[port] = info`: a port already present keeps its place. */
  function Put(slots: seq<Slot>, s: Slot): (r: seq<Slot>)
    requires Distinct(PortsOf(slots))
    ensures Distinct(PortsOf(r))
    ensures forall p :: p in PortsOf(r) <==> p in PortsOf(slots) || p == s.port
    ensures s in r
    ensures forall x | x in r :: x == s || (x in slots && x.port != s.port)
    ensures forall x | x in slots && x.port != s.port :: x in r
  {
    match Find(slots, s.port)
    case Some(i) =>
      var r := slots[i := s];
      assert PortsOf(r) == PortsOf(slots);
      forall x | x in r
        ensures x == s || (x in slots && x.port != s.port)
      {
        var j :| 0 <= j < |r| && r[j] == x;
        if j != i {
          assert PortsOf(slots)[j] != PortsOf(slots)[i];
        }
      }
      forall x | x in slots && x.port != s.port
        ensures x in r
      {
        var j :| 0 <= j < |slots| && slots[j] == x;
        assert r[j] == x;
      }
      r
    case None =>
      var r := slots + [s];
      assert PortsOf(r) == PortsOf(slots) + [s.port];
      DistinctSnoc(PortsOf(slots), s.port);
      r
  }

  /** `participants.putAll(other.participants)`: each of the other's
      records is put in turn. */
  function PutAll(mine: seq<Slot>, theirs: seq<Slot>): (r: seq<Slot>)
    requires Distinct(PortsOf(mine)) && Distinct(PortsOf(theirs))
    ensures Distinct(PortsOf(r))
    ensures forall p :: p in PortsOf(r) <==> p in PortsOf(mine) || p in PortsOf(theirs)
    ensures forall x | x in r :: x in theirs || (x in mine && x.port !in PortsOf(theirs))
    ensures forall x | x in theirs :: x in r
    decreases |theirs|
  {
    if |theirs| == 0 then mine
    else
      SlotsTail(theirs);
      var r := PutAll(Put(mine, theirs[0]), theirs[1..]);
      PutAllStep(mine, theirs, r);
      r
  }

  /** The ports of a slot list are its first slot's port, then the rest's. */
  lemma SlotsTail(s: seq<Slot>)
    requires |s| > 0 && Distinct(PortsOf(s))
    ensures Distinct(PortsOf(s[1..])) && s[0].port !in PortsOf(s[1..])
    ensures forall q :: q in PortsOf(s) <==> q == s[0].port || q in PortsOf(s[1..])
    ensures forall x | x in s :: x == s[0] || x in s[1..]
  {
    assert PortsOf(s[1..]) == PortsOf(s)[1..];
    assert PortsOf(s) == [s[0].port] + PortsOf(s[1..]);
    DistinctTail(PortsOf(s));
  }

  /** Putting the first record, then all the others, puts them all. */
  lemma PutAllStep(mine: seq<Slot>, theirs: seq<Slot>, r: seq<Slot>)
    requires Distinct(PortsOf(mine)) && Distinct(PortsOf(theirs)) && |theirs| > 0
    requires var step, rest := Put(mine, theirs[0]), theirs[1..];
      && Distinct(PortsOf(r))
      && (forall p :: p in PortsOf(r) <==> p in PortsOf(step) || p in PortsOf(rest))
      && (forall x | x in r :: x in rest || (x in step && x.port !in PortsOf(rest)))
      && (forall x | x in rest :: x in r)
    ensures forall p :: p in PortsOf(r) <==> p in PortsOf(mine) || p in PortsOf(theirs)
    ensures forall x | x in r :: x in theirs || (x in mine && x.port !in PortsOf(theirs))
    ensures forall x | x in theirs :: x in r
  {
    var step, rest := Put(mine, theirs[0]), theirs[1..];
    SlotsTail(theirs);
    forall x | x in r
      ensures x in theirs || (x in mine && x.port !in PortsOf(theirs))
    {
      if x !in rest {
        assert x in step && x.port !in PortsOf(rest);
        if x != theirs[0] {
          assert x in mine && x.port != theirs[0].port;
        }
      }
    }
  }

  /** Every propagated value floating. */
  function ClearPropagated(slots: seq<Slot>): (r: seq<Slot>)
    ensures |r| == |slots| && PortsOf(r) == PortsOf(slots)
    ensures forall i | 0 <= i < |r| ::
      (r[i].port == slots[i].port && r[i].info == slots[i].info.(lastPropagated := Floating(|slots[i].info.lastPropagated|)))
  {
    var r := seq(|slots|, i requires 0 <= i < |slots| =>
      Slot(slots[i].port, slots[i].info.(lastPropagated := Floating(|slots[i].info.lastPropagated|))));
    assert PortsOf(r) == PortsOf(slots);
    r
  }

  /** `LinkState.link` after the identity check: the other net's records join
      this one and every propagated value floats again, so the joined net
      merges to all-Z. */
  function JoinStates(a: LinkState, b: LinkState): (r: LinkState)
    requires WellFormed(a) && WellFormed(b) && a.bitSize == b.bitSize
    ensures WellFormed(r) && r.bitSize == a.bitSize
    ensures forall p :: p in PortsOf(r.slots) <==> p in PortsOf(a.slots) || p in PortsOf(b.slots)
    ensures forall i | 0 <= i < |r.slots| :: r.slots[i].info.lastPropagated == Floating(a.bitSize)
    ensures MergedValue(r) == Success(Floating(a.bitSize))
  {
    var joined := PutAll(a.slots, b.slots);
    var slots := ClearPropagated(joined);
    forall i | 0 <= i < |joined|
      ensures InfoWidth(joined[i].info, a.bitSize)
    {
      var x := joined[i];
      assert x in joined;
      if x in b.slots {
        var j :| 0 <= j < |b.slots| && b.slots[j] == x;
      } else {
        var j :| 0 <= j < |a.slots| && a.slots[j] == x;
      }
    }
    var r := LinkState(a.bitSize, slots);
    AllFloatingMerge(r);
    r
  }

  /** A net whose every propagated value floats merges to all-Z. */
  lemma AllFloatingMerge(ls: LinkState)
    requires WellFormed(ls)
    requires forall i | 0 <= i < |ls.slots| :: ls.slots[i].info.lastPropagated == Floating(ls.bitSize)
    ensures MergedValue(ls) == Success(Floating(ls.bitSize))
  {
    var vals := Propagated(ls.slots, None);
    PropagatedWidths(ls, None);
    MergeAllSpec(vals, ls.bitSize);
    assert forall v | v in vals :: v == Floating(ls.bitSize);
    assert !Clash(vals, ls.bitSize);
    var r := MergedValue(ls).value;
    assert r == Floating(ls.bitSize);
  }

  /** Removes the slot of port p, keeping the order of the others. */
  function RemoveSlot(slots: seq<Slot>, p: Port): (r: seq<Slot>)
    requires Distinct(PortsOf(slots))
    ensures Distinct(PortsOf(r))
    ensures forall q :: q in PortsOf(r) <==> q in PortsOf(slots) && q != p
    ensures forall x | x in r :: x in slots
    ensures forall x | x in slots && x.port != p :: x in r
    ensures |r| == if p in PortsOf(slots) then |slots| - 1 else |slots|
  {
    if |slots| == 0 then []
    else
      SlotsTail(slots);
      var rest := RemoveSlot(slots[1..], p);
      if slots[0].port == p then slots[1..]
      else
        KeepFirst(slots, p, rest);
        [slots[0]] + rest
  }

  /** Keeping the first slot in front of the rest with p removed removes p
      from the whole list. */
  lemma KeepFirst(slots: seq<Slot>, p: Port, rest: seq<Slot>)
    requires |slots| > 0 && Distinct(PortsOf(slots)) && slots[0].port != p
    requires Distinct(PortsOf(rest))
    requires forall q :: q in PortsOf(rest) <==> q in PortsOf(slots[1..]) && q != p
    requires forall x | x in rest :: x in slots[1..]
    requires forall x | x in slots[1..] && x.port != p :: x in rest
    requires |rest| == if p in PortsOf(slots[1..]) then |slots| - 2 else |slots| - 1
    ensures var r := [slots[0]] + rest;
      && Distinct(PortsOf(r))
      && (forall q :: q in PortsOf(r) <==> q in PortsOf(slots) && q != p)
      && (forall x | x in r :: x in slots)
      && (forall x | x in slots && x.port != p :: x in r)
      && |r| == if p in PortsOf(slots) then |slots| - 1 else |slots|
  {
    var x := slots[0];
    var r := [x] + rest;
    SlotsTail(slots);
    assert PortsOf(r) == [x.port] + PortsOf(rest);
    DistinctCons(x.port, PortsOf(rest));
  }

  /** The record of port p in a link state, if p participates. */
  function InfoOf(ls: LinkState, p: Port): (r: Option<PortInfo>)
    ensures r.None? <==> p !in PortsOf(ls.slots)
    ensures r.Some? ==> Slot(p, r.value) in ls.slots
  {
    match Find(ls.slots, p)
    case Some(i) => Some(ls.slots[i].info)
    case None => None
  }

  /** With one slot per port, the slot present is the record found. */
  lemma InfoOfSlot(ls: LinkState, p: Port, info: PortInfo)
    requires Distinct(PortsOf(ls.slots)) && Slot(p, info) in ls.slots
    ensures InfoOf(ls, p) == Some(info)
  {
    var j :| 0 <= j < |ls.slots| && ls.slots[j] == Slot(p, info);
    FindDistinct(ls.slots, j, p);
  }

  // ----- the circuit state -----

  /** A notification to the simulator: a net needs propagating, or a net is
      gone and must leave the queue. */
  datatype Notice = ValueChanged(link: nat) | LinkRemoved(link: nat)

  /** A circuit state: its circuit, whether it is a read-only clone, and the
      link states created so far, keyed by link. */
  datatype CircuitState = CircuitState(circuit: nat, readOnly: bool, linkStates: map<nat, LinkState>)

  /** What an operation leaves: the state, the notices sent and the exception
      thrown at its end, if any. */
  datatype Effect = Effect(state: CircuitState, notices: seq<Notice>, fault: Option<Fault>)

  predicate StatesWellFormed(cs: CircuitState)
  {
    forall l | l in cs.linkStates :: WellFormed(cs.linkStates[l])
  }

  /** Every link state as wide as its link. */
  predicate Matches(cs: CircuitState, n: Net)
  {
    forall l | l in cs.linkStates && l in n.links :: cs.linkStates[l].bitSize == n.links[l].bitSize
  }

  /** A read-only copy, as the cloning constructor makes. */
  function ReadOnlyClone(cs: CircuitState): (r: CircuitState)
    ensures r.readOnly && r.circuit == cs.circuit && r.linkStates == cs.linkStates
  {
    cs.(readOnly := true)
  }

  /** `get(link)`: the link's state, created on first use for a link of
      this state's circuit. */
  function Get(cs: CircuitState, n: Net, l: nat): (r: Result<CircuitState>)
    requires Valid(n) && l in n.links
    ensures r.Success? ==> l in r.value.linkStates
    ensures l in cs.linkStates ==> r == Success(cs)
    ensures l !in cs.linkStates ==>
      && (LinkCircuit(n, l).None? ==> r == Failure(IllegalArgument("Link has no circuit!")))
      && (LinkCircuit(n, l).Some? && LinkCircuit(n, l).value != cs.circuit ==> r == Failure(IllegalArgument("Link not from this circuit.")))
      && (LinkCircuit(n, l) == Some(cs.circuit) ==> r == Success(cs.(linkStates := cs.linkStates[l := NewLinkState(n.links[l])])))
    ensures StatesWellFormed(cs) && r.Success? ==> StatesWellFormed(r.value)
    ensures Matches(cs, n) && r.Success? ==> Matches(r.value, n)
    ensures r.Success? ==> r.value.linkStates.Keys == cs.linkStates.Keys + {l}
    ensures r.Success? ==> forall k | k in cs.linkStates :: r.value.linkStates[k] == cs.linkStates[k]
    ensures r.Success? ==> r.value.circuit == cs.circuit && r.value.readOnly == cs.readOnly
  {
    if l in cs.linkStates then Success(cs)
    else if LinkCircuit(n, l).None? then Failure(IllegalArgument("Link has no circuit!"))
    else if LinkCircuit(n, l).value != cs.circuit then Failure(IllegalArgument("Link not from this circuit."))
    else Success(cs.(linkStates := cs.linkStates[l := NewLinkState(n.links[l])]))
  }

  /** `pushValue`: refused on a read-only clone; a value equal to the one last
      pushed changes nothing; otherwise the record is overwritten and the
      simulator told that the port's net changed. */
  function PushValue(cs: CircuitState, n: Net, p: Port, v: WireValue): (r: Effect)
    requires Valid(n) && p in n.linkOf && StatesWellFormed(cs)
    ensures cs.readOnly ==> r == Effect(cs, [], Some(IllegalState("This CircuitState is read-only")))
    ensures StatesWellFormed(r.state)
    ensures !cs.readOnly && Get(cs, n, n.linkOf[p]).Success? ==>
      var g := Get(cs, n, n.linkOf[p]).value;
      var ls := g.linkStates[n.linkOf[p]];
      && (v == LastPushed(ls, p) ==> r == Effect(g, [], None))
      && (v != LastPushed(ls, p) && |v| != ls.bitSize ==> r == Effect(g, [], Some(IllegalArgument(SetSizeMessage(ls.bitSize, |v|)))))
      && (v != LastPushed(ls, p) && |v| == ls.bitSize ==>
            && r.notices == [ValueChanged(n.linkOf[p])] && r.fault.None?
            && n.linkOf[p] in r.state.linkStates
            && LastPushed(r.state.linkStates[n.linkOf[p]], p) == (if p in PortsOf(ls.slots) then v else Floating(ls.bitSize)))
    ensures !cs.readOnly && Get(cs, n, n.linkOf[p]).Failure? ==> r == Effect(cs, [], Some(Get(cs, n, n.linkOf[p]).error))
  {
    if cs.readOnly then Effect(cs, [], Some(IllegalState("This CircuitState is read-only")))
    else
      var l := n.linkOf[p];
      match Get(cs, n, l)
      case Failure(e) => Effect(cs, [], Some(e))
      case Success(g) =>
        var ls := g.linkStates[l];
        var last := LastPushed(ls, p);
        if v == last then Effect(g, [], None)
        else if |v| != |last| then Effect(g, [], Some(IllegalArgument(SetSizeMessage(|last|, |v|))))
        else
          match Find(ls.slots, p)
          case None =>
            // the record written is a temporary default; the net still counts as changed
            Effect(g, [ValueChanged(l)], None)
          case Some(i) =>
            Effect(g.(linkStates := g.linkStates[l := Repushed(ls, i, p, v)]), [ValueChanged(l)], None)
  }

  /** The net's state after `lastPushed.set(value)` on the record at slot i. */
  function Repushed(ls: LinkState, i: nat, p: Port, v: WireValue): (r: LinkState)
    requires WellFormed(ls) && i < |ls.slots| && ls.slots[i].port == p && |v| == ls.bitSize
    ensures WellFormed(r) && r.bitSize == ls.bitSize && PortsOf(r.slots) == PortsOf(ls.slots)
    ensures LastPushed(r, p) == v
  {
    var s := ls.slots[i];
    var r := LinkState(ls.bitSize, ls.slots[i := Slot(p, s.info.(lastPushed := v))]);
    assert PortsOf(r.slots) == PortsOf(ls.slots);
    FindDistinct(r.slots, i, p);
    r
  }

  /** A read-only clone reads every value the original holds, for every
      port of every net, yet refuses every push and is left as it was. */
  lemma ReadOnlyCloneRefusesPush(cs: CircuitState, n: Net, p: Port, v: WireValue)
    requires Valid(n) && p in n.linkOf && StatesWellFormed(cs)
    ensures var c := ReadOnlyClone(cs);
      && StatesWellFormed(c)
      && PushValue(c, n, p, v) == Effect(c, [], Some(IllegalState("This CircuitState is read-only")))
      && (forall l, q | l in cs.linkStates :: l in c.linkStates
            && LastPushed(c.linkStates[l], q) == LastPushed(cs.linkStates[l], q)
            && LastReceived(c.linkStates[l], q) == LastReceived(cs.linkStates[l], q))
  {
  }

  /** In a duplicate-free slot list, the slot of a port is found where it is. */
  lemma FindDistinct(slots: seq<Slot>, i: nat, p: Port)
    requires Distinct(PortsOf(slots)) && i < |slots| && slots[i].port == p
    ensures Find(slots, p) == Some(i)
  {
    var j := Find(slots, p).value;
    assert PortsOf(slots)[j] == PortsOf(slots)[i];
  }

  /** Copies each changed pushed value into the propagated one (the first
      half of `propagateSignal`). */
  function Publish(ls: LinkState): (r: LinkState)
    requires WellFormed(ls)
    ensures WellFormed(r) && r.bitSize == ls.bitSize && PortsOf(r.slots) == PortsOf(ls.slots)
    ensures forall i | 0 <= i < |r.slots| :: r.slots[i].info == ls.slots[i].info.(lastPropagated := ls.slots[i].info.lastPushed)
  {
    var slots := seq(|ls.slots|, i requires 0 <= i < |ls.slots| =>
      Slot(ls.slots[i].port, ls.slots[i].info.(lastPropagated := ls.slots[i].info.lastPushed)));
    assert PortsOf(slots) == PortsOf(ls.slots);
    LinkState(ls.bitSize, slots)
  }

  /** The outcome of `propagateSignal`. */
  datatype Signal = Signal(state: CircuitState, deliveries: seq<Delivery>, fault: Option<Fault>)

  /** `propagateSignal`: publish every pushed value onto the net, then
      propagate. Afterwards each participant has received the merge of the
      other participants' pushed values. */
  function PropagateSignal(cs: CircuitState, n: Net, l: nat, react: Delivery -> Option<Fault>): (r: Signal)
    requires Valid(n) && l in n.links && StatesWellFormed(cs)
    ensures Get(cs, n, l).Failure? ==> r == Signal(cs, [], Some(Get(cs, n, l).error))
    ensures StatesWellFormed(r.state)
    ensures Get(cs, n, l).Success? ==>
      var ls := Get(cs, n, l).value.linkStates[l];
      var pub := Publish(ls);
      && l in r.state.linkStates
      && r.state == Get(cs, n, l).value.(linkStates := Get(cs, n, l).value.linkStates[l := Propagate(pub, react).ls])
      && r.deliveries == Propagate(pub, react).deliveries
      && r.fault == Propagate(pub, react).fault
      && forall i | 0 <= i < |ls.slots| :: r.state.linkStates[l].slots[i].info.lastPropagated == ls.slots[i].info.lastPushed
  {
    match Get(cs, n, l)
    case Failure(e) => Signal(cs, [], Some(e))
    case Success(g) =>
      var pr := Propagate(Publish(g.linkStates[l]), react);
      Signal(g.(linkStates := g.linkStates[l := pr.ls]), pr.deliveries, pr.fault)
  }

  /** `CircuitState.link(link1, link2)` once both states exist and differ:
      the second net's records join the first's, the second's state is
      dropped and leaves the queue, and the first is queued. */
  function Joined(g: CircuitState, l1: nat, l2: nat): (r: Effect)
    requires l1 in g.linkStates && l2 in g.linkStates && l1 != l2 && StatesWellFormed(g)
    requires g.linkStates[l1].bitSize == g.linkStates[l2].bitSize
    ensures StatesWellFormed(r.state) && r.fault.None?
    ensures r.notices == [LinkRemoved(l2), ValueChanged(l1)]
    ensures r.state.circuit == g.circuit && r.state.readOnly == g.readOnly
    ensures r.state.linkStates.Keys == g.linkStates.Keys - {l2}
    ensures r.state.linkStates[l1] == JoinStates(g.linkStates[l1], g.linkStates[l2])
    ensures forall l | l in g.linkStates && l != l1 && l != l2 :: r.state.linkStates[l] == g.linkStates[l]
  {
    var a, b := g.linkStates[l1], g.linkStates[l2];
    var joined := JoinStates(a, b);
    var m := (g.linkStates - {l2})[l1 := joined];
    DropAndSet(g.linkStates, l1, l2, joined);
    Effect(g.(linkStates := m), [LinkRemoved(l2), ValueChanged(l1)], None)
  }

  /** Dropping one state and replacing another by a well-formed one keeps
      every state well-formed and touches no other. */
  lemma DropAndSet(ms: map<nat, LinkState>, l1: nat, l2: nat, x: LinkState)
    requires l1 in ms && l1 != l2 && WellFormed(x)
    requires forall l | l in ms :: WellFormed(ms[l])
    ensures var m := (ms - {l2})[l1 := x];
      && m.Keys == ms.Keys - {l2}
      && m[l1] == x
      && (forall l | l in ms && l != l1 && l != l2 :: m[l] == ms[l])
      && (forall l | l in m :: WellFormed(m[l]))
  {
    var m := (ms - {l2})[l1 := x];
    forall l | l in m
      ensures WellFormed(m[l])
    {
      if l != l1 {
        assert m[l] == ms[l];
      }
    }
  }

  /** `CircuitState.link(link1, link2)`: both states are fetched (and made on
      first use) in that order; linking a net with itself changes nothing
      more. The joined net carries every port of both and floats until the
      next propagation. */
  function LinkNets(cs: CircuitState, n: Net, l1: nat, l2: nat): (r: Effect)
    requires Valid(n) && l1 in n.links && l2 in n.links && StatesWellFormed(cs) && Matches(cs, n)
    requires n.links[l1].bitSize == n.links[l2].bitSize
    ensures StatesWellFormed(r.state) && Matches(r.state, n)
    ensures Get(cs, n, l1).Failure? ==> r == Effect(cs, [], Some(Get(cs, n, l1).error))
    ensures Get(cs, n, l1).Success? && Get(Get(cs, n, l1).value, n, l2).Failure? ==>
      r == Effect(Get(cs, n, l1).value, [], Some(Get(Get(cs, n, l1).value, n, l2).error))
    ensures Get(cs, n, l1).Success? && l1 == l2 ==> r == Effect(Get(cs, n, l1).value, [], None)
    ensures Get(cs, n, l1).Success? && Get(Get(cs, n, l1).value, n, l2).Success? && l1 != l2 ==>
      var g := Get(Get(cs, n, l1).value, n, l2).value;
      && r.fault.None?
      && r.notices == [LinkRemoved(l2), ValueChanged(l1)]
      && r.state.linkStates.Keys == g.linkStates.Keys - {l2}
      && (forall q :: q in PortsOf(r.state.linkStates[l1].slots) <==>
            q in PortsOf(g.linkStates[l1].slots) || q in PortsOf(g.linkStates[l2].slots))
      && MergedValue(r.state.linkStates[l1]) == Success(Floating(n.links[l1].bitSize))
      && (forall l | l in g.linkStates && l != l1 && l != l2 :: r.state.linkStates[l] == g.linkStates[l])
  {
    match Get(cs, n, l1)
    case Failure(e) => Effect(cs, [], Some(e))
    case Success(g1) =>
      match Get(g1, n, l2)
      case Failure(e) => Effect(g1, [], Some(e))
      case Success(g) =>
        if l1 == l2 then Effect(g, [], None)
        else
          var r := Joined(g, l1, l2);
          assert Matches(r.state, n);
          r
  }

  /** The record a port takes to its new net when unlinked: its pushed value,
      already propagated, and nothing received yet. */
  function Moved(info: PortInfo, w: nat): (r: PortInfo)
    requires |info.lastPushed| == w
    ensures InfoWidth(r, w)
    ensures r.lastPushed == info.lastPushed && r.lastPropagated == info.lastPushed && r.lastReceived == Floating(w)
  {
    PortInfo(info.lastPushed, info.lastPushed, Floating(w))
  }

  /** `get(link).participants.put(port, info)`. */
  function PutInfo(cs: CircuitState, n: Net, k: nat, p: Port, info: PortInfo): (r: Result<CircuitState>)
    requires Valid(n) && k in n.links && StatesWellFormed(cs) && Matches(cs, n)
    requires InfoWidth(info, n.links[k].bitSize)
    ensures r.Failure? <==> Get(cs, n, k).Failure?
    ensures r.Failure? ==> r.error == Get(cs, n, k).error
    ensures r.Success? ==>
      && StatesWellFormed(r.value) && Matches(r.value, n)
      && r.value.circuit == cs.circuit && r.value.readOnly == cs.readOnly
      && r.value.linkStates.Keys == cs.linkStates.Keys + {k}
      && InfoOf(r.value.linkStates[k], p) == Some(info)
      && (forall j | j in cs.linkStates && j != k :: r.value.linkStates[j] == cs.linkStates[j])
  {
    match Get(cs, n, k)
    case Failure(e) => Failure(e)
    case Success(g) =>
      var ls := g.linkStates[k];
      var slots := Put(ls.slots, Slot(p, info));
      var ls' := LinkState(ls.bitSize, slots);
      forall i | 0 <= i < |slots|
        ensures InfoWidth(slots[i].info, ls.bitSize)
      {
        assert slots[i] in slots;
        if slots[i] != Slot(p, info) {
          var j :| 0 <= j < |ls.slots| && ls.slots[j] == slots[i];
        }
      }
      InfoOfSlot(ls', p, info);
      Success(g.(linkStates := g.linkStates[k := ls']))
  }

  /** `participants.remove(port)` on the state of link l. */
  function Removed(g: CircuitState, n: Net, l: nat, p: Port): (r: CircuitState)
    requires l in g.linkStates && StatesWellFormed(g) && Matches(g, n)
    ensures StatesWellFormed(r) && Matches(r, n)
    ensures r.circuit == g.circuit && r.readOnly == g.readOnly
    ensures r.linkStates.Keys == g.linkStates.Keys
    ensures forall j | j in g.linkStates && j != l :: r.linkStates[j] == g.linkStates[j]
    ensures forall q :: q in PortsOf(r.linkStates[l].slots) <==> q in PortsOf(g.linkStates[l].slots) && q != p
    ensures |r.linkStates[l].slots| == if p in PortsOf(g.linkStates[l].slots) then |g.linkStates[l].slots| - 1 else |g.linkStates[l].slots|
  {
    var ls := g.linkStates[l];
    var rest := LinkState(ls.bitSize, RemoveSlot(ls.slots, p));
    forall i | 0 <= i < |rest.slots|
      ensures InfoWidth(rest.slots[i].info, ls.bitSize)
    {
      assert rest.slots[i] in rest.slots;
      var i' :| 0 <= i' < |ls.slots| && ls.slots[i'] == rest.slots[i];
    }
    var m := g.linkStates[l := rest];
    forall j | j in m
      ensures WellFormed(m[j])
    {
      if j != l {
        assert m[j] == g.linkStates[j];
      }
    }
    g.(linkStates := m)
  }

  /** Whether `get` fails depends only on which links have states. */
  lemma GetAlike(a: CircuitState, b: CircuitState, n: Net, k: nat)
    requires Valid(n) && k in n.links
    requires a.circuit == b.circuit && a.linkStates.Keys == b.linkStates.Keys
    ensures Get(a, n, k).Failure? <==> Get(b, n, k).Failure?
    ensures Get(a, n, k).Failure? ==> Get(a, n, k).error == Get(b, n, k).error
  {
  }

  /** The end of `LinkState.unlink`: an emptied state is dropped and leaves
      the queue, otherwise its link is queued. */
  function Settle(placed: CircuitState, n: Net, l: nat, fault: Option<Fault>): (r: Effect)
    requires l in placed.linkStates && StatesWellFormed(placed) && Matches(placed, n)
    ensures StatesWellFormed(r.state) && Matches(r.state, n) && r.fault == fault
    ensures |placed.linkStates[l].slots| == 0 ==> r.state.linkStates == placed.linkStates - {l} && r.notices == [LinkRemoved(l)]
    ensures |placed.linkStates[l].slots| > 0 ==> r.state == placed && r.notices == [ValueChanged(l)]
  {
    if |placed.linkStates[l].slots| == 0 then Effect(placed.(linkStates := placed.linkStates - {l}), [LinkRemoved(l)], fault)
    else Effect(placed, [ValueChanged(l)], fault)
  }

  /** `LinkState.unlink(port)` once the state of link l exists and holds p's
      record `info`: the record leaves l and joins p's new link; p's
      component is told the net now floats if it had received anything
      else; an emptied state is dropped, otherwise l is queued. */
  function Detached(g: CircuitState, n: Net, l: nat, p: Port, info: PortInfo, react: Delivery -> Option<Fault>): (r: Effect)
    requires Valid(n) && l in n.links && p in n.linkOf && StatesWellFormed(g) && Matches(g, n)
    requires n.linkOf[p] != l && n.links[n.linkOf[p]].bitSize == n.links[l].bitSize
    requires l in g.linkStates && Slot(p, info) in g.linkStates[l].slots
    ensures StatesWellFormed(r.state) && Matches(r.state, n)
    ensures Get(g, n, n.linkOf[p]).Failure? ==> r.notices == [] && r.fault == Some(Get(g, n, n.linkOf[p]).error)
    ensures Get(g, n, n.linkOf[p]).Success? ==>
      var w := n.links[l].bitSize;
      var ls := g.linkStates[l];
      && n.linkOf[p] in r.state.linkStates
      && InfoOf(r.state.linkStates[n.linkOf[p]], p) == Some(Moved(info, w))
      && (|ls.slots| == 1 ==> l !in r.state.linkStates && r.notices == [LinkRemoved(l)])
      && (|ls.slots| > 1 ==> (l in r.state.linkStates && r.notices == [ValueChanged(l)]
            && forall q :: q in PortsOf(r.state.linkStates[l].slots) <==> q in PortsOf(ls.slots) && q != p))
      && (info.lastReceived == Floating(w) ==> r.fault.None?)
      && (info.lastReceived != Floating(w) ==> r.fault == react(Delivery(p, Floating(w))))
  {
    var ls := g.linkStates[l];
    var w := ls.bitSize;
    var j :| 0 <= j < |ls.slots| && ls.slots[j] == Slot(p, info);
    assert InfoWidth(info, w);
    assert PortsOf(ls.slots)[j] == p;
    var fault := if info.lastReceived != Floating(w) then react(Delivery(p, Floating(w))) else None;
    var removed := Removed(g, n, l, p);
    GetAlike(g, removed, n, n.linkOf[p]);
    Rejoin(removed, n, l, p, Moved(info, w), fault)
  }

  /** The record of an unlinked port lands in the state of its new link,
      then the state it left is settled. */
  function Rejoin(removed: CircuitState, n: Net, l: nat, p: Port, moved: PortInfo, fault: Option<Fault>): (r: Effect)
    requires Valid(n) && l in n.links && p in n.linkOf && n.linkOf[p] != l
    requires StatesWellFormed(removed) && Matches(removed, n) && l in removed.linkStates
    requires InfoWidth(moved, n.links[n.linkOf[p]].bitSize)
    ensures StatesWellFormed(r.state) && Matches(r.state, n)
    ensures Get(removed, n, n.linkOf[p]).Failure? ==> r == Effect(removed, [], Some(Get(removed, n, n.linkOf[p]).error))
    ensures Get(removed, n, n.linkOf[p]).Success? ==>
      && n.linkOf[p] in r.state.linkStates
      && InfoOf(r.state.linkStates[n.linkOf[p]], p) == Some(moved)
      && r.fault == fault
      && (|removed.linkStates[l].slots| == 0 ==> l !in r.state.linkStates && r.notices == [LinkRemoved(l)])
      && (|removed.linkStates[l].slots| > 0 ==> l in r.state.linkStates && r.state.linkStates[l] == removed.linkStates[l] && r.notices == [ValueChanged(l)])
      && forall j | j in removed.linkStates && j != l && j != n.linkOf[p] :: j in r.state.linkStates && r.state.linkStates[j] == removed.linkStates[j]
  {
    match PutInfo(removed, n, n.linkOf[p], p, moved)
    case Failure(e) => Effect(removed, [], Some(e))
    case Success(placed) => Settle(placed, n, l, fault)
  }

  /** Unlinking a port touches only the state it leaves and the state it joins. */
  lemma DetachedKeepsOthers(g: CircuitState, n: Net, l: nat, p: Port, info: PortInfo, react: Delivery -> Option<Fault>)
    requires Valid(n) && l in n.links && p in n.linkOf && StatesWellFormed(g) && Matches(g, n)
    requires n.linkOf[p] != l && n.links[n.linkOf[p]].bitSize == n.links[l].bitSize
    requires l in g.linkStates && Slot(p, info) in g.linkStates[l].slots
    ensures var r := Detached(g, n, l, p, info, react);
      forall j | j in g.linkStates && j != l && j != n.linkOf[p] :: j in r.state.linkStates && r.state.linkStates[j] == g.linkStates[j]
  {
    var ls := g.linkStates[l];
    var j :| 0 <= j < |ls.slots| && ls.slots[j] == Slot(p, info);
    assert InfoWidth(info, ls.bitSize);
  }

  /** `CircuitState.unlink(link, port)`, run after the netlist has moved p
      out of l into a link of its own: a state that never held p's record
      changes nothing beyond being fetched. */
  function UnlinkNet(cs: CircuitState, n: Net, l: nat, p: Port, react: Delivery -> Option<Fault>): (r: Effect)
    requires Valid(n) && l in n.links && p in n.linkOf && StatesWellFormed(cs) && Matches(cs, n)
    requires n.linkOf[p] != l && n.links[n.linkOf[p]].bitSize == n.links[l].bitSize
    ensures StatesWellFormed(r.state) && Matches(r.state, n)
    ensures Get(cs, n, l).Failure? ==> r == Effect(cs, [], Some(Get(cs, n, l).error))
    ensures Get(cs, n, l).Success? && p !in PortsOf(Get(cs, n, l).value.linkStates[l].slots) ==>
      r == Effect(Get(cs, n, l).value, [], None)
    ensures Get(cs, n, l).Success? && p in PortsOf(Get(cs, n, l).value.linkStates[l].slots) ==>
      var g := Get(cs, n, l).value;
      r == Detached(g, n, l, p, InfoOf(g.linkStates[l], p).value, react)
  {
    match Get(cs, n, l)
    case Failure(e) => Effect(cs, [], Some(e))
    case Success(g) =>
      match InfoOf(g.linkStates[l], p)
      case None => Effect(g, [], None)
      case Some(info) => Detached(g, n, l, p, info, react)
  }

  /** `ensureUnlinked(component, removeLinks)` over the links of the
      component's ports, in port order: a port whose net still has other
      participants stops the walk with an exception; otherwise, when asked,
      each link state is dropped and leaves the queue. */
  function EnsureUnlinked(cs: CircuitState, links: seq<nat>, removeLinks: bool): (r: Effect)
    ensures r.fault.Some? <==> exists i | 0 <= i < |links| :: links[i] in cs.linkStates && |cs.linkStates[links[i]].slots| > 1
    ensures r.fault.Some? ==> r.fault.value == Runtime("Must unlink port before removing it.")
    ensures r.fault.None? && removeLinks ==> forall l | l in links :: l !in r.state.linkStates
    ensures r.fault.None? && removeLinks ==> r.notices == seq(|links|, i requires 0 <= i < |links| => LinkRemoved(links[i]))
    ensures !removeLinks ==> r.state == cs && r.notices == []
    ensures r.state.circuit == cs.circuit && r.state.readOnly == cs.readOnly
    ensures r.state.linkStates.Keys <= cs.linkStates.Keys
    ensures forall l | l in r.state.linkStates :: r.state.linkStates[l] == cs.linkStates[l]
    decreases |links|
  {
    if |links| == 0 then Effect(cs, [], None)
    else
      var l := links[0];
      if l in cs.linkStates && |cs.linkStates[l].slots| > 1 then
        Effect(cs, [], Some(Runtime("Must unlink port before removing it.")))
      else
        var cs' := if removeLinks then cs.(linkStates := cs.linkStates - {l}) else cs;
        var rest := EnsureUnlinked(cs', links[1..], removeLinks);
        assert forall i | 1 <= i < |links| :: links[i] == links[1..][i - 1];
        assert forall i | 1 <= i < |links| :: links[i] in cs'.linkStates ==> cs'.linkStates[links[i]] == cs.linkStates[links[i]];
        assert (exists i | 0 <= i < |links| :: links[i] in cs.linkStates && |cs.linkStates[links[i]].slots| > 1)
          ==> exists i | 0 <= i < |links[1..]| :: links[1..][i] in cs'.linkStates && |cs'.linkStates[links[1..][i]].slots| > 1 by {
          if exists i | 0 <= i < |links| :: links[i] in cs.linkStates && |cs.linkStates[links[i]].slots| > 1 {
            var i :| 0 <= i < |links| && links[i] in cs.linkStates && |cs.linkStates[links[i]].slots| > 1;
            if i > 0 && removeLinks && links[i] == l {
              assert false;
            }
          }
        }
        var notices := (if removeLinks then [LinkRemoved(l)] else []) + rest.notices;
        Effect(rest.state, notices, rest.fault)
  }

  /** `reset`, for the nets: every link state starts over as all-Z. The
      components' own re-initialisation is modelled with each component. */
  function Reset(cs: CircuitState, n: Net): (r: CircuitState)
    requires Valid(n) && cs.linkStates.Keys <= n.links.Keys
    ensures r.linkStates.Keys == cs.linkStates.Keys && StatesWellFormed(r)
    ensures forall l | l in r.linkStates :: r.linkStates[l] == NewLinkState(n.links[l])
    ensures forall l | l in r.linkStates :: MergedValue(r.linkStates[l]) == Success(Floating(n.links[l].bitSize))
  {
    var r := cs.(linkStates := map l | l in cs.linkStates :: NewLinkState(n.links[l]));
    forall l | l in r.linkStates
      ensures MergedValue(r.linkStates[l]) == Success(Floating(n.links[l].bitSize))
    {
      AllFloatingMerge(r.linkStates[l]);
    }
    r
  }
}
