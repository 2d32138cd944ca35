/** A subcircuit: a component embedding another circuit, with one port per
    pin of the embedded circuit, a guard against embedding a circuit in
    itself, and an inner circuit state per state of the containing circuit. */
module Subcircuits {
  import opened Wrappers
  import opened WireValues
  import Netlist

  // ----- ports and pins -----

  /** A pin of the embedded circuit: its width, whether it is an input,
      whether it still belongs to a circuit, and its single port. */
  datatype Pin = Pin(id: nat, bitSize: nat, isInput: bool, attached: bool, port: Netlist.Port)

  /** The width of each of the subcircuit's ports: port i is as wide as pin i. */
  function PortBits(pins: seq<Pin>): (r: seq<nat>)
    ensures |r| == |pins|
    ensures forall i | 0 <= i < |pins| :: r[i] == pins[i].bitSize
  {
    seq(|pins|, i requires 0 <= i < |pins| => pins[i].bitSize)
  }

  /** The subcircuit's default pins: the embedded circuit's components that
      are pins, in iteration order. */
  function DefaultPins(components: seq<nat>, pinOf: map<nat, Pin>): (r: seq<Pin>)
    ensures forall p | p in r :: exists x | x in components :: x in pinOf && pinOf[x] == p
    ensures forall x | x in components && x in pinOf :: pinOf[x] in r
    decreases |components|
  {
    if |components| == 0 then []
    else
      var rest := DefaultPins(components[1..], pinOf);
      assert forall x | x in components[1..] :: x in components;
      assert forall x | x in components :: x == components[0] || x in components[1..];
      if components[0] in pinOf then [pinOf[components[0]]] + rest else rest
  }

  /** `pins.indexOf(pin)`: the first position of the pin, if any. */
  function IndexOf(pins: seq<Pin>, pin: Pin): (r: Option<nat>)
    ensures r.None? <==> pin !in pins
    ensures r.Some? ==> r.value < |pins| && pins[r.value] == pin && forall j | 0 <= j < r.value :: pins[j] != pin
  {
    if |pins| == 0 then None
    else if pins[0] == pin then Some(0)
    else
      match IndexOf(pins[1..], pin)
      case None => None
      case Some(i) => Some(i + 1)
  }

  /** `getPort(pin)`: the port at the pin's position, or null for a pin
      that is not one of the subcircuit's. */
  function GetPortOfPin(self: nat, pins: seq<Pin>, pin: Pin): (r: Option<Netlist.Port>)
    ensures r.None? <==> pin !in pins
    ensures r.Some? ==> r.value.component == self && r.value.index < |pins| && pins[r.value.index] == pin
  {
    match IndexOf(pins, pin)
    case None => None
    case Some(i) => Some(Netlist.Port(self, i))
  }

  /** `valueChanged(state, value, portIndex)`: the value goes on to the
      inner state through the pin's own port, when the pin is an input
      still attached to a circuit. The inner state is the component's
      property in the outer state; without one the cast fails. */
  function ValueChanged(inner: Option<nat>, pins: seq<Pin>, portIndex: nat, value: WireValue): (r: Result<Option<(nat, Netlist.Port, WireValue)>>)
    ensures inner.None? ==> r == Failure(NullPointer)
    ensures inner.Some? && portIndex >= |pins| ==> r == Failure(IndexOutOfBounds)
    ensures inner.Some? && portIndex < |pins| ==>
      && r.Success?
      && (r.value.Some? <==> pins[portIndex].isInput && pins[portIndex].attached)
      && (r.value.Some? ==> r.value.value == (inner.value, pins[portIndex].port, value))
  {
    if inner.None? then Failure(NullPointer)
    else if portIndex >= |pins| then Failure(IndexOutOfBounds)
    else
      var pin := pins[portIndex];
      if pin.isInput && pin.attached then Success(Some((inner.value, pin.port, value)))
      else Success(None)
  }

  // ----- loop detection -----

  /** The circuits in play: which components are subcircuits and the
      circuit each embeds, and each circuit's components in iteration order. */
  datatype Library = Library(embeds: map<nat, nat>, members: map<nat, seq<nat>>)

  function Members(lib: Library, c: nat): seq<nat>
  {
    if c in lib.members then lib.members[c] else []
  }

  /** Circuit a directly embeds circuit b through a subcircuit other than self. */
  ghost predicate Embeds(lib: Library, self: nat, a: nat, b: nat)
  {
    exists k | k in Members(lib, a) :: k != self && k in lib.embeds && lib.embeds[k] == b
  }

  /** p is a chain of circuits, each embedding the next. */
  ghost predicate Chain(lib: Library, self: nat, p: seq<nat>)
  {
    |p| >= 1 && forall i | 0 <= i < |p| - 1 :: Embeds(lib, self, p[i], p[i + 1])
  }

  const LoopMessage: string := "Subcircuit loop detected."

  /** `checkCircuitLoop(circuit)` of subcircuit `self` placed in circuit
      `owner` (None for null): the check fails when the circuit is the
      owner, then descends depth-first into every other subcircuit among
      its components. The recursion keeps no visited set, so a cycle of
      embeddings away from the owner recurses until the stack overflows;
      `fuel` is the depth the stack allows. */
  function CheckLoop(lib: Library, self: nat, owner: Option<nat>, c: nat, fuel: nat): (r: Result<()>)
    ensures owner == Some(c) ==> r == Failure(Simulation(LoopMessage))
    ensures r.Failure? ==> r.error == Simulation(LoopMessage) || r.error == StackOverflow
    decreases fuel, 0
  {
    if owner == Some(c) then Failure(Simulation(LoopMessage))
    else if fuel == 0 then Failure(StackOverflow)
    else CheckEach(lib, self, owner, Members(lib, c), fuel - 1)
  }

  /** The loop of `checkCircuitLoop` over one circuit's components. */
  function CheckEach(lib: Library, self: nat, owner: Option<nat>, ks: seq<nat>, fuel: nat): (r: Result<()>)
    ensures r.Failure? ==> r.error == Simulation(LoopMessage) || r.error == StackOverflow
    decreases fuel, 1, |ks|
  {
    if |ks| == 0 then Success(())
    else
      var k := ks[0];
      var here := if k != self && k in lib.embeds then CheckLoop(lib, self, owner, lib.embeds[k], fuel) else Success(());
      if here.Failure? then here else CheckEach(lib, self, owner, ks[1..], fuel)
  }

  /** A check that passes rules out every chain of embeddings from the
      checked circuit to the owner. */
  lemma {:induction false} PassedMeansNoLoop(lib: Library, self: nat, owner: nat, p: seq<nat>, fuel: nat)
    requires Chain(lib, self, p) && p[|p| - 1] == owner
    ensures CheckLoop(lib, self, Some(owner), p[0], fuel).Failure?
    decreases |p|
  {
    if |p| > 1 && p[0] != owner && fuel > 0 {
      assert Embeds(lib, self, p[0], p[1]);
      var k :| k in Members(lib, p[0]) && k != self && k in lib.embeds && lib.embeds[k] == p[1];
      assert Chain(lib, self, p[1..]) by {
        forall i | 0 <= i < |p[1..]| - 1
          ensures Embeds(lib, self, p[1..][i], p[1..][i + 1])
        {
          assert p[1..][i] == p[i + 1] && p[1..][i + 1] == p[i + 2];
        }
      }
      PassedMeansNoLoop(lib, self, owner, p[1..], fuel - 1);
      EachFailsOn(lib, self, Some(owner), Members(lib, p[0]), k, fuel - 1);
    }
  }

  /** The component loop fails when one of its subcircuits' checks fails. */
  lemma {:induction false} EachFailsOn(lib: Library, self: nat, owner: Option<nat>, ks: seq<nat>, k: nat, fuel: nat)
    requires k in ks && k != self && k in lib.embeds
    requires CheckLoop(lib, self, owner, lib.embeds[k], fuel).Failure?
    ensures CheckEach(lib, self, owner, ks, fuel).Failure?
    decreases |ks|
  {
    if ks[0] != k {
      EachFailsOn(lib, self, owner, ks[1..], k, fuel);
    }
  }

  /** A reported loop comes with a chain of embeddings from the checked
      circuit to the owner. */
  lemma {:induction false} LoopWitness(lib: Library, self: nat, owner: nat, c: nat, fuel: nat) returns (p: seq<nat>)
    requires CheckLoop(lib, self, Some(owner), c, fuel) == Failure(Simulation(LoopMessage))
    ensures Chain(lib, self, p) && p[0] == c && p[|p| - 1] == owner
    decreases fuel, 0
  {
    if owner == c {
      p := [c];
    } else {
      var k, tail := EachWitness(lib, self, owner, Members(lib, c), fuel - 1);
      p := [c] + tail;
      assert Embeds(lib, self, c, tail[0]);
      forall i | 0 <= i < |p| - 1
        ensures Embeds(lib, self, p[i], p[i + 1])
      {
        if i > 0 {
          assert p[i] == tail[i - 1] && p[i + 1] == tail[i];
        }
      }
    }
  }

  /** The witness inside the component loop: the subcircuit whose check
      found the loop, and the chain below it. */
  lemma {:induction false} EachWitness(lib: Library, self: nat, owner: nat, ks: seq<nat>, fuel: nat) returns (k: nat, p: seq<nat>)
    requires CheckEach(lib, self, Some(owner), ks, fuel) == Failure(Simulation(LoopMessage))
    ensures k in ks && k != self && k in lib.embeds
    ensures Chain(lib, self, p) && p[0] == lib.embeds[k] && p[|p| - 1] == owner
    decreases fuel, 1, |ks|
  {
    var k0 := ks[0];
    var here := if k0 != self && k0 in lib.embeds then CheckLoop(lib, self, Some(owner), lib.embeds[k0], fuel) else Success(());
    if here.Failure? {
      k := k0;
      p := LoopWitness(lib, self, owner, lib.embeds[k0], fuel);
    } else {
      k, p := EachWitness(lib, self, owner, ks[1..], fuel);
    }
  }

  /** The `circuit` setter: the field takes the new value, then the embedded
      circuit is checked for a loop through it. The exception leaves the
      field set. */
  function SetCircuit(lib: Library, self: nat, value: Option<nat>, fuel: nat): (r: Outcome<Option<nat>>)
    requires self in lib.embeds
    ensures r.value == value
    ensures r.fault.None? <==> CheckLoop(lib, self, value, lib.embeds[self], fuel).Success?
    ensures value == Some(lib.embeds[self]) ==> r.fault == Some(Simulation(LoopMessage))
  {
    var check := CheckLoop(lib, self, value, lib.embeds[self], fuel);
    Outcome(value, if check.Failure? then Some(check.error) else None)
  }

  /** Clearing the field never finds a loop: with no owner only a cycle of
      embeddings can fail the check, by overflowing the stack. */
  lemma {:induction false} ClearingFindsNoLoop(lib: Library, self: nat, c: nat, fuel: nat)
    ensures CheckLoop(lib, self, None, c, fuel) != Failure(Simulation(LoopMessage))
    decreases fuel, 0
  {
    if fuel > 0 {
      EachNoLoop(lib, self, Members(lib, c), fuel - 1);
    }
  }

  lemma {:induction false} EachNoLoop(lib: Library, self: nat, ks: seq<nat>, fuel: nat)
    ensures CheckEach(lib, self, None, ks, fuel) != Failure(Simulation(LoopMessage))
    decreases fuel, 1, |ks|
  {
    if |ks| > 0 {
      var k := ks[0];
      if k != self && k in lib.embeds {
        ClearingFindsNoLoop(lib, self, lib.embeds[k], fuel);
      }
      EachNoLoop(lib, self, ks[1..], fuel);
    }
  }

  // ----- the inner states -----

  /** Component properties of the circuit states: (state, component) to the
      inner state a subcircuit keeps there. */
  type Properties = map<(nat, nat), nat>

  /** What `init` does in outer state `state`: a fresh inner state becomes
      the property; every component of the embedded circuit is initialised
      in it with its property in the old inner state, when there was one;
      the old inner state is removed from the containing circuit's states. */
  datatype Initialised = Initialised(props: Properties, calls: seq<(nat, nat, Option<nat>)>, dropped: Option<nat>)

  function Init(props: Properties, self: nat, state: nat, inner: nat, last: Option<nat>, components: seq<nat>): (r: Initialised)
    ensures r.props == props[(state, self) := inner]
    ensures |r.calls| == |components|
    ensures forall i | 0 <= i < |components| :: r.calls[i] == (components[i], inner, last)
    ensures r.dropped == last
  {
    Initialised(props[(state, self) := inner], seq(|components|, i requires 0 <= i < |components| => (components[i], inner, last)), last)
  }

  /** What `uninit` does in outer state `state`: the property goes, and the
      inner state it held is uninitialised and removed from the embedded
      circuit. A missing property fails the cast. */
  function Uninit(props: Properties, self: nat, state: nat): (r: Result<(Properties, nat)>)
    ensures (state, self) !in props ==> r == Failure(NullPointer)
    ensures (state, self) in props ==> r == Success((props - {(state, self)}, props[(state, self)]))
  {
    if (state, self) !in props then Failure(NullPointer)
    else Success((props - {(state, self)}, props[(state, self)]))
  }

  /** `uninit` undoes `init`: the properties return to what they were. */
  lemma UninitUndoesInit(props: Properties, self: nat, state: nat, inner: nat, last: Option<nat>, components: seq<nat>)
    requires (state, self) !in props
    ensures Uninit(Init(props, self, state, inner, last, components).props, self, state) == Success((props, inner))
  {
    assert props[(state, self) := inner] - {(state, self)} == props;
  }
}
