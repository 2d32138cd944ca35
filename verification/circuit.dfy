/** A circuit's component membership: adding, removing, replacing and
    clearing components, with each circuit state's `init`/`uninit` run in
    turn and the change listeners told of every addition and removal.

    What `init`, `uninit` and `ensureUnlinked` do to the circuit states is
    component-specific; the model threads an opaque world `W` through them
    and receives them as functions (`Hooks`). The calls made are recorded in
    a log, which is what the listeners and the hooks observe. */
module Circuits {
  import opened Wrappers
  import Simulator
  import Subcircuits

  /** One observable call: a component initialised in a state with the
      property of component `from`, uninitialised in a state, or a listener
      notification. */
  datatype Call =
    | Init(component: nat, state: nat, from: nat)
    | Uninit(component: nat, state: nat)
    | Changed(component: nat, added: bool)

  /** The component-specific parts: `init` and `uninit` may throw; so may
      `ensureUnlinked`, after unlinking the ports before the one that
      fails, and its exception is not caught. `setCircuit` is the check
      the component's `circuit` setter makes once the field holds the new
      circuit: a subcircuit looks for an embedding loop (`SubcircuitSetter`),
      any other component accepts. */
  datatype Hooks<!W> = Hooks(
    init: (W, nat, nat, nat) -> Outcome<W>,
    uninit: (W, nat, nat) -> Outcome<W>,
    ensureUnlinked: (W, nat, nat, bool) -> Outcome<W>,
    setCircuit: (W, nat, nat) -> Option<Fault>)

  /** A circuit: its identity, its components, its states (in iteration
      order), each component's `circuit` field (`owner`, absent for null),
      the world of states and the log of calls. */
  datatype Circuit<W> = Circuit(
    id: nat,
    components: set<nat>,
    states: seq<nat>,
    owner: map<nat, nat>,
    world: W,
    log: seq<Call>)

  /** Every component of the circuit names it as its circuit. */
  predicate Valid<W>(c: Circuit<W>)
  {
    forall x | x in c.components :: x in c.owner && c.owner[x] == c.id
  }

  /** What an operation returns: the circuit and the exception it throws. */
  datatype Done<W> = Done(circuit: Circuit<W>, fault: Option<Fault>)

  /** A new circuit: its top-level state is its only state, and it is
      registered with its simulator. */
  function Create<W>(sim: Simulator.Sim, id: nat, top: nat, owner: map<nat, nat>, w: W): (r: (Circuit<W>, Simulator.Sim))
    ensures r.0.states == [top] && r.0.components == {} && r.0.id == id && r.0.log == []
    ensures Valid(r.0)
    ensures r.1.circuits == sim.circuits + {id} && r.1.queue == sim.queue
  {
    (Circuit(id, {}, [top], owner, w, []), Simulator.AddCircuit(sim, id))
  }

  // ----- states -----

  /** `addState`: a state already present is not added twice. */
  function AddState<W>(c: Circuit<W>, s: nat): (r: Circuit<W>)
    ensures forall x :: x in r.states <==> x in c.states || x == s
    ensures r.components == c.components && r.owner == c.owner && r.log == c.log
  {
    if s in c.states then c else c.(states := c.states + [s])
  }

  /** `removeState`. */
  function RemoveState<W>(c: Circuit<W>, s: nat): (r: Circuit<W>)
    ensures forall x :: x in r.states <==> x in c.states && x != s
    ensures r.components == c.components && r.owner == c.owner && r.log == c.log
    decreases |c.states|
  {
    if |c.states| == 0 then c
    else
      var rest := RemoveState(c.(states := c.states[1..]), s);
      assert forall x | x in c.states :: x == c.states[0] || x in c.states[1..];
      if c.states[0] == s then rest else rest.(states := [c.states[0]] + rest.states)
  }

  /** `containsState`. */
  predicate ContainsState<W>(c: Circuit<W>, s: nat)
  {
    s in c.states
  }

  // ----- the loops over the states -----

  /** A pass over the states: the world, the calls made, the exception each
      call threw, and the first exception saved. */
  datatype Pass<W> = Pass(world: W, calls: seq<Call>, faults: seq<Option<Fault>>, first: Option<Fault>)

  /** The first exception of a sequence of calls. */
  function FirstFault(fs: seq<Option<Fault>>): (r: Option<Fault>)
    ensures r.None? <==> forall i | 0 <= i < |fs| :: fs[i].None?
    ensures r.Some? ==> exists i | 0 <= i < |fs| :: fs[i] == r && forall j | 0 <= j < i :: fs[j].None?
  {
    if |fs| == 0 then None
    else if fs[0].Some? then fs[0]
    else
      var r := FirstFault(fs[1..]);
      assert forall i | 1 <= i < |fs| :: fs[1..][i - 1] == fs[i];
      assert r.Some? ==> exists i | 0 <= i < |fs| :: fs[i] == r && forall j | 0 <= j < i :: fs[j].None? by {
        if r.Some? {
          var i :| 0 <= i < |fs[1..]| && fs[1..][i] == r && forall j | 0 <= j < i :: fs[1..][j].None?;
          assert fs[i + 1] == r && forall j | 0 <= j < i + 1 :: fs[j].None?;
        }
      }
      r
  }

  /** `newComponent.init(state, state.getComponentProperty(from))` for each
      state in turn; the exception saved is the first one thrown. */
  function InitAll<W>(w: W, states: seq<nat>, x: nat, from: nat, hooks: Hooks<W>, first: Option<Fault>): (r: Pass<W>)
    ensures r.calls == seq(|states|, i requires 0 <= i < |states| => Init(x, states[i], from))
    ensures |r.faults| == |states|
    ensures r.first == if first.Some? then first else FirstFault(r.faults)
    decreases |states|
  {
    if |states| == 0 then Pass(w, [], [], first)
    else
      var o := hooks.init(w, states[0], x, from);
      var first' := if first.Some? then first else o.fault;
      var rest := InitAll(o.value, states[1..], x, from, hooks, first');
      assert forall i | 1 <= i < |states| :: states[1..][i - 1] == states[i];
      assert ([o.fault] + rest.faults)[1..] == rest.faults;
      Pass(rest.world, [Init(x, states[0], from)] + rest.calls, [o.fault] + rest.faults, rest.first)
  }

  /** `component.uninit(state)` for each state in turn; the exception saved
      is the first one thrown. */
  function UninitAll<W>(w: W, states: seq<nat>, x: nat, hooks: Hooks<W>, first: Option<Fault>): (r: Pass<W>)
    ensures r.calls == seq(|states|, i requires 0 <= i < |states| => Uninit(x, states[i]))
    ensures |r.faults| == |states|
    ensures r.first == if first.Some? then first else FirstFault(r.faults)
    decreases |states|
  {
    if |states| == 0 then Pass(w, [], [], first)
    else
      var o := hooks.uninit(w, states[0], x);
      var first' := if first.Some? then first else o.fault;
      var rest := UninitAll(o.value, states[1..], x, hooks, first');
      assert forall i | 1 <= i < |states| :: states[1..][i - 1] == states[i];
      assert ([o.fault] + rest.faults)[1..] == rest.faults;
      Pass(rest.world, [Uninit(x, states[0])] + rest.calls, [o.fault] + rest.faults, rest.first)
  }

  /** The unlinking walk: the worlds before each call that went through,
      then the world and exception the walk ends with. */
  datatype Unlinking<W> = Unlinking(worlds: seq<W>, world: W, fault: Option<Fault>)

  /** `state.ensureUnlinked(component, removeLinks)` for each state in
      turn: each call starts from the world the previous one left, and the
      first exception stops the walk with what that call had already done. */
  function UnlinkAll<W>(w: W, states: seq<nat>, x: nat, removeLinks: bool, hooks: Hooks<W>): (r: Unlinking<W>)
    ensures 1 <= |r.worlds| <= |states| + 1 && r.worlds[0] == w
    ensures forall i | 0 <= i < |r.worlds| - 1 ::
      hooks.ensureUnlinked(r.worlds[i], states[i], x, removeLinks) == Outcome(r.worlds[i + 1], None)
    ensures r.fault.None? <==> |r.worlds| == |states| + 1
    ensures r.fault.None? ==> r.world == r.worlds[|states|]
    ensures r.fault.Some? ==>
      && |r.worlds| <= |states|
      && hooks.ensureUnlinked(r.worlds[|r.worlds| - 1], states[|r.worlds| - 1], x, removeLinks) == Outcome(r.world, r.fault)
    decreases |states|
  {
    if |states| == 0 then Unlinking([w], w, None)
    else
      var o := hooks.ensureUnlinked(w, states[0], x, removeLinks);
      if o.fault.Some? then Unlinking([w], o.value, o.fault)
      else
        var rest := UnlinkAll(o.value, states[1..], x, removeLinks, hooks);
        assert forall i | 1 <= i < |states| :: states[1..][i - 1] == states[i];
        assert forall i | 1 <= i < |rest.worlds| + 1 :: ([w] + rest.worlds)[i] == rest.worlds[i - 1];
        Unlinking([w] + rest.worlds, rest.world, rest.fault)
  }

  // ----- add and remove -----

  /** The private `add(new, old)`: the new component's `circuit` field is
      set, and the setter's check may throw at once, leaving the field set
      and nothing else done. Otherwise the component joins, is initialised
      in every state with old's property, and the listeners hear of it. */
  function AddOne<W>(c: Circuit<W>, x: nat, from: nat, hooks: Hooks<W>, first: Option<Fault>): (r: Done<W>)
    ensures hooks.setCircuit(c.world, x, c.id).Some? ==>
      r == Done(c.(owner := c.owner[x := c.id]), hooks.setCircuit(c.world, x, c.id))
    ensures hooks.setCircuit(c.world, x, c.id).None? ==>
      && r.circuit.components == c.components + {x}
      && r.circuit.log == c.log + seq(|c.states|, i requires 0 <= i < |c.states| => Init(x, c.states[i], from)) + [Changed(x, true)]
      && (first.Some? ==> r.fault == first)
    ensures r.circuit.owner == c.owner[x := c.id]
    ensures r.circuit.states == c.states && r.circuit.id == c.id
    ensures Valid(c) ==> Valid(r.circuit)
  {
    var check := hooks.setCircuit(c.world, x, c.id);
    if check.Some? then Done(c.(owner := c.owner[x := c.id]), check)
    else
      var pass := InitAll(c.world, c.states, x, from, hooks, first);
      Done(c.(components := c.components + {x}, owner := c.owner[x := c.id], world := pass.world,
              log := c.log + pass.calls + [Changed(x, true)]), pass.first)
  }

  /** The private `remove(component, removeLinks)`: every state must have
      the component unlinked (an exception there escapes at once, after the
      earlier states have been unlinked); then it leaves, is uninitialised
      in every state, loses its circuit, and the listeners hear of it. */
  function RemoveOne<W>(c: Circuit<W>, x: nat, removeLinks: bool, hooks: Hooks<W>): (r: Done<W>)
    ensures var u := UnlinkAll(c.world, c.states, x, removeLinks, hooks);
      u.fault.Some? ==> r == Done(c.(world := u.world), u.fault)
    ensures UnlinkAll(c.world, c.states, x, removeLinks, hooks).fault.None? ==>
      && r.circuit.components == c.components - {x}
      && r.circuit.owner == c.owner - {x}
      && r.circuit.log == c.log + seq(|c.states|, i requires 0 <= i < |c.states| => Uninit(x, c.states[i])) + [Changed(x, false)]
    ensures r.circuit.states == c.states && r.circuit.id == c.id
    ensures Valid(c) ==> Valid(r.circuit)
  {
    var u := UnlinkAll(c.world, c.states, x, removeLinks, hooks);
    if u.fault.Some? then Done(c.(world := u.world), u.fault)
    else
      var pass := UninitAll(u.world, c.states, x, hooks, None);
      Done(c.(components := c.components - {x}, owner := c.owner - {x}, world := pass.world,
              log := c.log + pass.calls + [Changed(x, false)]), pass.first)
  }

  /** `addComponent`: a component already in this circuit is left alone;
      one in another circuit is refused before any change; the setter's
      check may refuse the new one after its field is set. */
  function AddComponent<W>(c: Circuit<W>, x: nat, hooks: Hooks<W>): (r: Done<W>)
    ensures x in c.owner && c.owner[x] == c.id ==> r == Done(c, None)
    ensures x in c.owner && c.owner[x] != c.id ==>
      r == Done(c, Some(IllegalArgument("Component already belongs to a circuit.")))
    ensures x !in c.owner ==> r.circuit.owner == c.owner[x := c.id]
    ensures x !in c.owner && hooks.setCircuit(c.world, x, c.id).Some? ==>
      && r.circuit.components == c.components && r.circuit.log == c.log
      && r.fault == hooks.setCircuit(c.world, x, c.id)
    ensures x !in c.owner && hooks.setCircuit(c.world, x, c.id).None? ==>
      && r.circuit.components == c.components + {x}
      && r.circuit.log == c.log + seq(|c.states|, i requires 0 <= i < |c.states| => Init(x, c.states[i], x)) + [Changed(x, true)]
    ensures (x in r.circuit.owner && r.circuit.owner[x] == c.id) || r.fault.Some?
    ensures Valid(c) ==> Valid(r.circuit)
  {
    if x in c.owner && c.owner[x] == c.id then Done(c, None)
    else if x in c.owner then Done(c, Some(IllegalArgument("Component already belongs to a circuit.")))
    else AddOne(c, x, x, hooks, None)
  }

  /** `removeComponent`: a component not in the circuit is left alone. */
  function RemoveComponent<W>(c: Circuit<W>, x: nat, hooks: Hooks<W>): (r: Done<W>)
    ensures x !in c.components ==> r == Done(c, None)
    ensures x in c.components ==> r == RemoveOne(c, x, true, hooks)
    ensures x in c.components && UnlinkAll(c.world, c.states, x, true, hooks).fault.None? ==>
      x !in r.circuit.components && x !in r.circuit.owner && r.circuit.components == c.components - {x}
    ensures x in c.components && UnlinkAll(c.world, c.states, x, true, hooks).fault.Some? ==>
      r.circuit.components == c.components && r.fault.Some?
    ensures Valid(c) ==> Valid(r.circuit)
  {
    if x !in c.components then Done(c, None) else RemoveOne(c, x, true, hooks)
  }

  /** `updateComponent(prev, x, inBetween)`: prev leaves (its links kept),
      `inBetween` runs, then x joins and is initialised with prev's
      property. The first exception of either half is thrown at the end;
      one from `ensureUnlinked` or from x's setter escapes at once. */
  function UpdateComponent<W>(c: Circuit<W>, prev: nat, x: nat, between: W -> W, hooks: Hooks<W>): (r: Done<W>)
    ensures UnlinkAll(c.world, c.states, prev, false, hooks).fault.Some? ==> r == RemoveOne(c, prev, false, hooks)
    ensures var removed := RemoveOne(c, prev, false, hooks);
      var check := hooks.setCircuit(between(removed.circuit.world), x, c.id);
      UnlinkAll(c.world, c.states, prev, false, hooks).fault.None? ==>
      && r.circuit.owner == (c.owner - {prev})[x := c.id]
      && (check.Some? ==>
            && r.circuit.components == c.components - {prev}
            && r.circuit.log == c.log + seq(|c.states|, i requires 0 <= i < |c.states| => Uninit(prev, c.states[i])) + [Changed(prev, false)]
            && r.fault == check)
      && (check.None? ==>
            && r.circuit.components == c.components - {prev} + {x}
            && r.circuit.log == c.log
                 + seq(|c.states|, i requires 0 <= i < |c.states| => Uninit(prev, c.states[i])) + [Changed(prev, false)]
                 + seq(|c.states|, i requires 0 <= i < |c.states| => Init(x, c.states[i], prev)) + [Changed(x, true)]
            && (removed.fault.Some? ==> r.fault == removed.fault))
  {
    var removed := RemoveOne(c, prev, false, hooks);
    if UnlinkAll(c.world, c.states, prev, false, hooks).fault.Some? then removed
    else
      var mid := removed.circuit.(world := between(removed.circuit.world));
      AddOne(mid, x, prev, hooks, removed.fault)
  }

  /** `clearComponents`: each component of a snapshot is removed in turn; an
      exception ends the walk. */
  function ClearComponents<W>(c: Circuit<W>, order: seq<nat>, hooks: Hooks<W>): (r: Done<W>)
    ensures r.fault.None? ==> forall x | x in order :: x !in r.circuit.components
    ensures r.fault.None? ==> r.circuit.components == c.components - (set x | x in order)
    ensures Valid(c) ==> Valid(r.circuit)
    decreases |order|
  {
    if |order| == 0 then Done(c, None)
    else
      var step := RemoveComponent(c, order[0], hooks);
      if step.fault.Some? then step
      else
        assert step.circuit.components == c.components - {order[0]} by {
          if order[0] in c.components {
            assert UnlinkAll(c.world, c.states, order[0], true, hooks).fault.None?;
          }
        }
        var rest := ClearComponents(step.circuit, order[1..], hooks);
        assert forall x | x in order :: x == order[0] || x in order[1..];
        rest
  }

  /** Clearing with a snapshot of every component leaves none, when no
      removal throws. */
  lemma ClearEmpties<W>(c: Circuit<W>, order: seq<nat>, hooks: Hooks<W>)
    requires forall x | x in c.components :: x in order
    requires ClearComponents(c, order, hooks).fault.None?
    ensures ClearComponents(c, order, hooks).circuit.components == {}
  {
  }

  // ----- the setter of a subcircuit -----

  /** The `circuit` setter of each component, given how to read the
      subcircuit library off the world: a subcircuit (a component the
      library says embeds a circuit) runs its loop check with the new
      circuit as owner; any other component accepts. */
  function SubcircuitSetter<W>(library: W -> Subcircuits.Library, fuel: nat): (W, nat, nat) -> Option<Fault>
  {
    (w: W, x: nat, id: nat) =>
      var lib := library(w);
      if x in lib.embeds then Subcircuits.SetCircuit(lib, x, Some(id), fuel).fault else None
  }

  /** A subcircuit added to a circuit that its own embedded circuit reaches
      through a chain of embeddings is refused, with "Subcircuit loop
      detected." or, when the chain is deeper than the stack, an overflow:
      the circuit keeps its components and its log, and only
      the subcircuit's `circuit` field has changed. */
  lemma AddLoopRefused<W>(c: Circuit<W>, x: nat, hooks: Hooks<W>, library: W -> Subcircuits.Library, fuel: nat, p: seq<nat>)
    requires hooks.setCircuit == SubcircuitSetter(library, fuel)
    requires x !in c.owner && x in library(c.world).embeds
    requires Subcircuits.Chain(library(c.world), x, p) && p[0] == library(c.world).embeds[x] && p[|p| - 1] == c.id
    ensures var r := AddComponent(c, x, hooks);
      && (r.fault == Some(Simulation(Subcircuits.LoopMessage)) || r.fault == Some(StackOverflow))
      && r.circuit.components == c.components && r.circuit.log == c.log
      && r.circuit.owner == c.owner[x := c.id]
  {
    Subcircuits.PassedMeansNoLoop(library(c.world), x, c.id, p, fuel);
  }

  /** A subcircuit placed directly inside the circuit it embeds is always
      refused with the loop message. */
  lemma AddSelfRefused<W>(c: Circuit<W>, x: nat, hooks: Hooks<W>, library: W -> Subcircuits.Library, fuel: nat)
    requires hooks.setCircuit == SubcircuitSetter(library, fuel)
    requires x !in c.owner && x in library(c.world).embeds && library(c.world).embeds[x] == c.id
    ensures AddComponent(c, x, hooks) ==
      Done(c.(owner := c.owner[x := c.id]), Some(Simulation(Subcircuits.LoopMessage)))
  {
  }

  // ----- hooks that do nothing -----

  /** The default `init`/`uninit` of `Component`, an `ensureUnlinked` that
      finds nothing linked, and the plain `circuit` setter: none has an
      effect. */
  function Quiet<W>(): Hooks<W>
  {
    Hooks((w, s, x, from) => Outcome(w, None), (w, s, x) => Outcome(w, None), (w, s, x, b) => Outcome(w, None),
          (w, x, id) => None)
  }

  /** With quiet hooks, removing a component just added restores the
      membership and the owners; the listeners hear exactly one addition and
      then one removal, after the component's `init` and `uninit` in each
      state. */
  lemma AddThenRemove<W>(c: Circuit<W>, x: nat)
    requires Valid(c) && x !in c.owner
    ensures var a := AddComponent(c, x, Quiet());
      var r := RemoveComponent(a.circuit, x, Quiet());
      && a.fault.None? && r.fault.None?
      && r.circuit.components == c.components && r.circuit.owner == c.owner
      && r.circuit.log == c.log
           + seq(|c.states|, i requires 0 <= i < |c.states| => Init(x, c.states[i], x)) + [Changed(x, true)]
           + seq(|c.states|, i requires 0 <= i < |c.states| => Uninit(x, c.states[i])) + [Changed(x, false)]
  {
    var q: Hooks<W> := Quiet();
    var a := AddComponent(c, x, q);
    assert x !in c.components;
    QuietPasses(c.world, c.states, x, x);
    QuietUnlinks(a.circuit.world, a.circuit.states, x, true);
    QuietPasses(a.circuit.world, a.circuit.states, x, x);
    assert c.owner[x := c.id] - {x} == c.owner;
  }

  /** Quiet hooks throw nothing and leave the world as it was. */
  lemma {:induction false} QuietPasses<W>(w: W, states: seq<nat>, x: nat, from: nat)
    ensures InitAll(w, states, x, from, Quiet(), None).first.None?
    ensures InitAll(w, states, x, from, Quiet(), None).world == w
    ensures UninitAll(w, states, x, Quiet(), None).first.None?
    ensures UninitAll(w, states, x, Quiet(), None).world == w
    decreases |states|
  {
    if |states| > 0 {
      QuietPasses(w, states[1..], x, from);
    }
  }

  /** Quiet hooks never stop the unlinking walk. */
  lemma {:induction false} QuietUnlinks<W>(w: W, states: seq<nat>, x: nat, removeLinks: bool)
    ensures UnlinkAll(w, states, x, removeLinks, Quiet()).fault.None?
    ensures UnlinkAll(w, states, x, removeLinks, Quiet()).world == w
    decreases |states|
  {
    if |states| > 0 {
      QuietUnlinks(w, states[1..], x, removeLinks);
    }
  }
}
