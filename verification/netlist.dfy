/** Components, their ports and the links that join ports into nets.

    Object identity is modelled by numbers: a component is named by its id, a
    port by its component and index, a link by a key into `links`. The source's
    `HashSet` of participants is a duplicate-free sequence whose order stands
    for the set's iteration order. */
module Netlist {
  import opened Wrappers
  import opened OrderedSets

  datatype Port = Port(component: nat, index: nat)

  /** A net: its width and the ports it joins. */
  datatype Link = Link(bitSize: nat, participants: seq<Port>)

  /** Every link, the link each port is in, and the circuit each component
      belongs to (a component absent from `circuitOf` belongs to none). */
  datatype Net = Net(
    links: map<nat, Link>,
    linkOf: map<Port, nat>,
    circuitOf: map<nat, nat>,
    nextLink: nat)

  /** The links partition the ports: each port is in exactly the link
      `linkOf` names, and every link is non-empty and fresh keys lie above
      `nextLink`. */
  predicate Valid(n: Net)
  {
    && (forall p | p in n.linkOf :: n.linkOf[p] in n.links && p in n.links[n.linkOf[p]].participants)
    && (forall l | l in n.links :: Distinct(n.links[l].participants) && |n.links[l].participants| >= 1)
    && (forall l, p | l in n.links && p in n.links[l].participants :: p in n.linkOf && n.linkOf[p] == l)
    && (forall l | l in n.links :: l < n.nextLink)
  }

  /** Puts a new port alone in a fresh link of the given width (`Port`'s
      constructor). */
  function AddPort(n: Net, p: Port, bitSize: nat): (r: Net)
    requires Valid(n) && p !in n.linkOf
    ensures Valid(r) && r.circuitOf == n.circuitOf
    ensures r.linkOf.Keys == n.linkOf.Keys + {p}
    ensures r.links[r.linkOf[p]] == Link(bitSize, [p])
    ensures forall q | q in n.linkOf :: r.linkOf[q] == n.linkOf[q] && r.links[r.linkOf[q]] == n.links[n.linkOf[q]]
  {
    AddedValid(n, p, bitSize);
    Added(n, p, bitSize)
  }

  /** The net with p alone in a fresh link numbered nextLink. */
  function Added(n: Net, p: Port, bitSize: nat): Net
  {
    var k := n.nextLink;
    Net(n.links[k := Link(bitSize, [p])], n.linkOf[p := k], n.circuitOf, k + 1)
  }

  lemma AddedValid(n: Net, p: Port, bitSize: nat)
    requires Valid(n) && p !in n.linkOf
    ensures Valid(Added(n, p, bitSize)) && n.nextLink !in n.links
  {
    assert forall l | l in n.links :: l != n.nextLink;
  }

  /** Ports 0 .. count-1 of component id sit alone in links of their widths,
      on top of the ports of n, which keep their links. */
  ghost predicate HasPorts(n: Net, r: Net, id: nat, portBits: seq<nat>, count: nat)
    requires Valid(n) && count <= |portBits|
  {
    && Valid(r) && r.circuitOf == n.circuitOf
    && (forall q :: q in r.linkOf <==> q in n.linkOf || (q.component == id && q.index < count))
    && (forall i | 0 <= i < count :: r.linkOf[Port(id, i)] in r.links && r.links[r.linkOf[Port(id, i)]] == Link(portBits[i], [Port(id, i)]))
    && (forall q | q in n.linkOf :: r.linkOf[q] == n.linkOf[q] && r.links[r.linkOf[q]] == n.links[n.linkOf[q]])
  }

  /** Creates ports 0 .. count-1 of component id, each in its own link. */
  function AddPorts(n: Net, id: nat, portBits: seq<nat>, count: nat): (r: Net)
    requires Valid(n) && count <= |portBits|
    requires forall p | p in n.linkOf :: p.component != id
    ensures HasPorts(n, r, id, portBits, count)
    decreases count
  {
    if count == 0 then n
    else
      var m := AddPorts(n, id, portBits, count - 1);
      AddPortsStep(n, m, id, portBits, count);
      AddPort(m, Port(id, count - 1), portBits[count - 1])
  }

  lemma AddPortsStep(n: Net, m: Net, id: nat, portBits: seq<nat>, count: nat)
    requires Valid(n) && 1 <= count <= |portBits|
    requires forall p | p in n.linkOf :: p.component != id
    requires HasPorts(n, m, id, portBits, count - 1)
    ensures Port(id, count - 1) !in m.linkOf
    ensures HasPorts(n, AddPort(m, Port(id, count - 1), portBits[count - 1]), id, portBits, count)
  {
    var p := Port(id, count - 1);
    assert p !in m.linkOf;
    var r := AddPort(m, p, portBits[count - 1]);
    forall i | 0 <= i < count
      ensures r.linkOf[Port(id, i)] in r.links && r.links[r.linkOf[Port(id, i)]] == Link(portBits[i], [Port(id, i)])
    {
      if i < count - 1 {
        assert Port(id, i) in m.linkOf;
      }
    }
    forall q | q in n.linkOf
      ensures r.linkOf[q] == n.linkOf[q] && r.links[r.linkOf[q]] == n.links[n.linkOf[q]]
    {
      assert q in m.linkOf;
    }
  }

  /** Constructing a component: port i starts alone in a fresh link of width
      portBits[i], and the component belongs to no circuit. */
  function NewComponent(n: Net, id: nat, portBits: seq<nat>): (r: Net)
    requires Valid(n)
    requires forall p | p in n.linkOf :: p.component != id
    ensures Valid(r)
    ensures id !in r.circuitOf
    ensures forall q :: q in r.linkOf <==> q in n.linkOf || (q.component == id && q.index < |portBits|)
    ensures forall i | 0 <= i < |portBits| :: r.links[r.linkOf[Port(id, i)]] == Link(portBits[i], [Port(id, i)])
    ensures forall q | q in n.linkOf :: r.linkOf[q] == n.linkOf[q] && r.links[r.linkOf[q]] == n.links[n.linkOf[q]]
  {
    var m := AddPorts(n, id, portBits, |portBits|);
    assert HasPorts(n, m, id, portBits, |portBits|);
    m.(circuitOf := m.circuitOf - {id})
  }

  /** `numPorts` and `getPort(i)`: an index outside the port array throws. */
  function GetPort(id: nat, portBits: seq<nat>, i: int): (r: Result<Port>)
    ensures r.Success? <==> 0 <= i < |portBits|
    ensures r.Success? ==> r.value.component == id && r.value.index == i
    ensures r.Failure? ==> r.error == IndexOutOfBounds
  {
    if 0 <= i < |portBits| then Success(Port(id, i)) else Failure(IndexOutOfBounds)
  }

  /** The ports `getPort` hands out for a new component are exactly its own
      new ports: each is alone in a link as wide as the port array says, and
      an index that throws names no port the component has. */
  lemma GetPortOfNew(n: Net, id: nat, portBits: seq<nat>, i: int)
    requires Valid(n) && forall p | p in n.linkOf :: p.component != id
    ensures var r := NewComponent(n, id, portBits);
      && (GetPort(id, portBits, i).Success? ==>
            var p := GetPort(id, portBits, i).value;
            p in r.linkOf && p !in n.linkOf && r.links[r.linkOf[p]] == Link(portBits[i], [p]))
      && (GetPort(id, portBits, i).Failure? ==> forall q | q in r.linkOf && q.component == id :: q.index != i)
  {
  }

  /** `toString`: the name when there is one, else the identity text. */
  function ComponentText(name: string, identity: string): (s: string)
    ensures |name| > 0 ==> s == name
    ensures |name| == 0 ==> s == identity
  {
    if |name| > 0 then name else identity
  }

  /** The circuit of the first participant whose component belongs to one. */
  function FirstCircuit(ps: seq<Port>, circuitOf: map<nat, nat>): (r: Option<nat>)
    ensures r.None? <==> forall i | 0 <= i < |ps| :: ps[i].component !in circuitOf
    ensures r.Some? ==> exists i | 0 <= i < |ps| :: ps[i].component in circuitOf && circuitOf[ps[i].component] == r.value
  {
    if |ps| == 0 then None
    else if ps[0].component in circuitOf then Some(circuitOf[ps[0].component])
    else
      var r := FirstCircuit(ps[1..], circuitOf);
      assert r.Some? ==> exists i | 1 <= i < |ps| :: ps[i].component in circuitOf && circuitOf[ps[i].component] == r.value by {
        if r.Some? {
          var i :| 0 <= i < |ps[1..]| && ps[1..][i].component in circuitOf && circuitOf[ps[1..][i].component] == r.value;
          assert ps[i + 1] == ps[1..][i];
        }
      }
      r
  }

  /** `Link.circuit`. */
  function LinkCircuit(n: Net, l: nat): Option<nat>
    requires l in n.links
  {
    FirstCircuit(n.links[l].participants, n.circuitOf)
  }

  /** When every attached participant is in one circuit, the iteration order
      does not matter: the link's circuit is that circuit. */
  lemma LinkCircuitUnique(n: Net, l: nat, c: nat)
    requires l in n.links
    requires exists p | p in n.links[l].participants :: p.component in n.circuitOf
    requires forall p | p in n.links[l].participants && p.component in n.circuitOf :: n.circuitOf[p.component] == c
    ensures LinkCircuit(n, l) == Some(c)
  {
  }

  /** The circuit of a joined participant list is found in the first part
      when it has one, else in the second. */
  lemma {:induction false} FirstCircuitConcat(a: seq<Port>, b: seq<Port>, m: map<nat, nat>)
    ensures FirstCircuit(a + b, m) == if FirstCircuit(a, m).Some? then FirstCircuit(a, m) else FirstCircuit(b, m)
    decreases |a|
  {
    if |a| == 0 {
      assert a + b == b;
    } else {
      assert (a + b)[1..] == a[1..] + b;
      FirstCircuitConcat(a[1..], b, m);
    }
  }

  /** `Link.linkPort`: joins the net of `p` into link `l`. */
  function LinkPort(n: Net, l: nat, p: Port): (r: Result<Net>)
    requires Valid(n) && l in n.links && p in n.linkOf
    ensures r.Failure? <==>
      && p !in n.links[l].participants
      && (|| LinkCircuit(n, l).None?
          || LinkCircuit(n, n.linkOf[p]).None?
          || LinkCircuit(n, n.linkOf[p]) != LinkCircuit(n, l)
          || n.links[n.linkOf[p]].bitSize != n.links[l].bitSize)
    ensures r.Failure? && LinkCircuit(n, l).None? ==> r.error == IllegalState("Link does not belong to a circuit.")
    ensures r.Failure? && LinkCircuit(n, l).Some? && LinkCircuit(n, n.linkOf[p]).None? ==>
      r.error == IllegalState("Port does not belong to a circuit.")
    ensures (r.Failure? && LinkCircuit(n, l).Some? && LinkCircuit(n, n.linkOf[p]).Some?
      && LinkCircuit(n, n.linkOf[p]) != LinkCircuit(n, l)) ==> r.error == IllegalArgument("Links belong to different circuits.")
    ensures r.Failure? && LinkCircuit(n, l).Some? && LinkCircuit(n, n.linkOf[p]) == LinkCircuit(n, l) ==>
      r.error == IllegalArgument("Links have different bit sizes.")
    ensures p in n.links[l].participants ==> r == Success(n)
  {
    if p in n.links[l].participants then Success(n)
    else
      var other := n.linkOf[p];
      var c := LinkCircuit(n, l);
      if c.None? then Failure(IllegalState("Link does not belong to a circuit."))
      else if LinkCircuit(n, other).None? then Failure(IllegalState("Port does not belong to a circuit."))
      else if LinkCircuit(n, other) != c then Failure(IllegalArgument("Links belong to different circuits."))
      else if n.links[other].bitSize != n.links[l].bitSize then Failure(IllegalArgument("Links have different bit sizes."))
      else Success(Join(n, l, other))
  }

  /** The participant union and re-pointing that a successful `linkPort` performs. */
  function Join(n: Net, l: nat, other: nat): (r: Net)
    requires Valid(n) && l in n.links && other in n.links && l != other
    ensures Valid(r)
    ensures r.links.Keys == n.links.Keys - {other}
    ensures r.linkOf.Keys == n.linkOf.Keys && r.circuitOf == n.circuitOf
    ensures r.links[l].bitSize == n.links[l].bitSize
    ensures r.links[l].participants == n.links[l].participants + n.links[other].participants
    ensures forall q | q in n.links[other].participants :: r.linkOf[q] == l
    ensures forall q | q in n.linkOf && q !in n.links[other].participants :: r.linkOf[q] == n.linkOf[q]
    ensures forall k | k in r.links && k != l :: r.links[k] == n.links[k]
  {
    JoinedValid(n, l, other);
    Joined(n, l, other)
  }

  /** The joined net: l takes other's participants, other is dropped. */
  function Joined(n: Net, l: nat, other: nat): Net
    requires l in n.links && other in n.links
  {
    var b := n.links[other].participants;
    var joined := Link(n.links[l].bitSize, n.links[l].participants + b);
    var linkOf := map q | q in n.linkOf :: if q in b then l else n.linkOf[q];
    Net((n.links - {other})[l := joined], linkOf, n.circuitOf, n.nextLink)
  }

  lemma JoinedValid(n: Net, l: nat, other: nat)
    requires Valid(n) && l in n.links && other in n.links && l != other
    ensures Valid(Joined(n, l, other))
  {
    var a := n.links[l].participants;
    var b := n.links[other].participants;
    var r := Joined(n, l, other);
    assert Distinct(a + b) by {
      forall i, j | 0 <= i < j < |a + b|
        ensures (a + b)[i] != (a + b)[j]
      {
        if j < |a| {
          assert (a + b)[i] == a[i] && (a + b)[j] == a[j];
        } else if i >= |a| {
          assert (a + b)[i] == b[i - |a|] && (a + b)[j] == b[j - |a|];
        } else {
          assert (a + b)[i] == a[i] && (a + b)[j] == b[j - |a|];
          assert n.linkOf[a[i]] == l && n.linkOf[b[j - |a|]] == other;
        }
      }
    }
    forall q | q in r.linkOf
      ensures r.linkOf[q] in r.links && q in r.links[r.linkOf[q]].participants
    {
      if q in b {
      } else {
        assert n.linkOf[q] != other;
      }
    }
    forall j, q | j in r.links && q in r.links[j].participants
      ensures q in r.linkOf && r.linkOf[q] == j
    {
      if j == l {
        if q in a {
          assert n.linkOf[q] == l;
          assert q !in b;
        }
      } else {
        assert j != other && q in n.links[j].participants;
        assert n.linkOf[q] == j;
      }
    }
  }

  /** Removes one element from a duplicate-free sequence, keeping the order. */
  function Remove(s: seq<Port>, p: Port): (r: seq<Port>)
    requires Distinct(s)
    ensures Distinct(r)
    ensures forall q :: q in r <==> q in s && q != p
    ensures p in s ==> |r| == |s| - 1
    ensures p !in s ==> r == s
  {
    if |s| == 0 then []
    else if s[0] == p then
      assert forall q | q in s[1..] :: q != p;
      s[1..]
    else
      var t := Remove(s[1..], p);
      assert s[0] !in t;
      DistinctCons(s[0], t);
      [s[0]] + t
  }

  lemma DistinctCons(x: Port, t: seq<Port>)
    requires Distinct(t) && x !in t
    ensures Distinct([x] + t)
  {
    forall i, j | 0 <= i < j < |[x] + t|
      ensures ([x] + t)[i] != ([x] + t)[j]
    {
      assert ([x] + t)[j] == t[j - 1];
      if i > 0 {
        assert ([x] + t)[i] == t[i - 1];
      }
    }
  }

  /** Moves p out of link l into a fresh link of its own. */
  function Detach(n: Net, l: nat, p: Port): (r: Net)
    requires Valid(n) && l in n.links && p in n.links[l].participants && |n.links[l].participants| > 1
    ensures Valid(r) && r.circuitOf == n.circuitOf
    ensures l in r.links && r.links[l].bitSize == n.links[l].bitSize
    ensures forall q :: q in r.links[l].participants <==> q in n.links[l].participants && q != p
    ensures p in r.linkOf && r.linkOf[p] != l && r.links[r.linkOf[p]] == Link(n.links[l].bitSize, [p])
    ensures r.linkOf.Keys == n.linkOf.Keys
    ensures forall q | q in n.linkOf && q != p :: r.linkOf[q] == n.linkOf[q]
  {
    DetachedValid(n, l, p);
    Detached(n, l, p)
  }

  /** The detached net: p leaves l for a fresh link numbered nextLink. */
  function Detached(n: Net, l: nat, p: Port): Net
    requires l in n.links && Distinct(n.links[l].participants)
  {
    var k := n.nextLink;
    var w := n.links[l].bitSize;
    var links := n.links[l := Link(w, Remove(n.links[l].participants, p))][k := Link(w, [p])];
    Net(links, n.linkOf[p := k], n.circuitOf, k + 1)
  }

  lemma DetachedValid(n: Net, l: nat, p: Port)
    requires Valid(n) && l in n.links && p in n.links[l].participants && |n.links[l].participants| > 1
    ensures Valid(Detached(n, l, p))
  {
    var r := Detached(n, l, p);
    assert |Remove(n.links[l].participants, p)| >= 1;
    assert l != n.nextLink;
    DetachedPointed(n, l, p);
    DetachedListed(n, l, p);
  }

  /** In the detached net every port's link lists it. */
  lemma DetachedPointed(n: Net, l: nat, p: Port)
    requires Valid(n) && l in n.links && p in n.links[l].participants
    ensures var r := Detached(n, l, p);
      forall q | q in r.linkOf :: r.linkOf[q] in r.links && q in r.links[r.linkOf[q]].participants
  {
    var r := Detached(n, l, p);
    assert l != n.nextLink;
    forall q | q in r.linkOf
      ensures r.linkOf[q] in r.links && q in r.links[r.linkOf[q]].participants
    {
      if q != p {
        assert n.linkOf[q] in n.links && q in n.links[n.linkOf[q]].participants;
      }
    }
  }

  /** In the detached net every listed participant points back to its link. */
  lemma DetachedListed(n: Net, l: nat, p: Port)
    requires Valid(n) && l in n.links && p in n.links[l].participants
    ensures var r := Detached(n, l, p);
      forall j, q | j in r.links && q in r.links[j].participants :: q in r.linkOf && r.linkOf[q] == j
  {
    var r := Detached(n, l, p);
    var k := n.nextLink;
    assert l != k;
    assert n.linkOf[p] == l;
    forall j, q | j in r.links && q in r.links[j].participants
      ensures q in r.linkOf && r.linkOf[q] == j
    {
      if j == k {
      } else if j == l {
      } else {
        assert q in n.links[j].participants;
      }
    }
  }

  /** `Link.unlinkPort`: takes p out of link l into a fresh link of the same
      width. The link's circuit is read before the removal; with no circuit
      the state update that follows dereferences null after the mutation. */
  function UnlinkPort(n: Net, l: nat, p: Port): (r: Outcome<Net>)
    requires Valid(n) && l in n.links
    ensures p !in n.links[l].participants || |n.links[l].participants| == 1 ==> r == Outcome(n, None)
    ensures Valid(r.value)
    ensures p in n.links[l].participants && |n.links[l].participants| > 1 ==>
      && l in r.value.links && r.value.links[l].bitSize == n.links[l].bitSize
      && (forall q :: q in r.value.links[l].participants <==> q in n.links[l].participants && q != p)
      && p in r.value.linkOf
      && r.value.links[r.value.linkOf[p]] == Link(n.links[l].bitSize, [p])
      && r.value.linkOf.Keys == n.linkOf.Keys
      && (forall q | q in n.linkOf && q != p :: r.value.linkOf[q] == n.linkOf[q])
      && (r.fault.Some? <==> LinkCircuit(n, l).None?)
      && (r.fault.Some? ==> r.fault.value == NullPointer)
  {
    var ps := n.links[l].participants;
    if p !in ps || |ps| == 1 then Outcome(n, None)
    else Outcome(Detach(n, l, p), if LinkCircuit(n, l).None? then Some(NullPointer) else None)
  }

  /** Linking a port that sits alone and then unlinking it again restores
      both nets: the link has its old participants and the port is alone in
      a link of its width. */
  lemma LinkThenUnlink(n: Net, l: nat, p: Port)
    requires Valid(n) && l in n.links && p in n.linkOf
    requires n.links[n.linkOf[p]].participants == [p]
    requires LinkPort(n, l, p).Success?
    requires p !in n.links[l].participants
    ensures var m := LinkPort(n, l, p).value;
      var u := UnlinkPort(m, l, p).value;
      && (forall q :: q in u.links[l].participants <==> q in n.links[l].participants)
      && u.links[l].bitSize == n.links[l].bitSize
      && u.links[u.linkOf[p]] == n.links[n.linkOf[p]]
  {
    var m := LinkPort(n, l, p).value;
    assert m.links[l].participants == n.links[l].participants + [p];
    assert |m.links[l].participants| > 1;
  }

  /** Linking keeps every port in exactly one net, never loses a port, and
      leaves the link in the circuit it was in. */
  lemma LinkPortKeepsPorts(n: Net, l: nat, p: Port)
    requires Valid(n) && l in n.links && p in n.linkOf
    requires LinkPort(n, l, p).Success?
    ensures var m := LinkPort(n, l, p).value;
      && Valid(m) && m.linkOf.Keys == n.linkOf.Keys && m.linkOf[p] == l
      && (forall q | q in n.links[l].participants :: m.linkOf[q] == l)
      && LinkCircuit(m, l) == LinkCircuit(n, l)
  {
    if p !in n.links[l].participants {
      var other := n.linkOf[p];
      FirstCircuitConcat(n.links[l].participants, n.links[other].participants, n.circuitOf);
    }
  }
}
