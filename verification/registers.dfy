/** The sequential one-word components: the register (Register.kt), the D
    flip-flop (DFlipFlop.kt) and the SR flip-flop (SRFlipFlop.kt).

    Each keeps what it last output as its component property in the circuit
    state; a step returns the new property along with the values it pushes.
    A step that pushes nothing leaves the property as it was. */
module Registers {
  import opened Wrappers
  import opened WireValues
  import opened Components

  /** The component property after an event, and the values pushed. */
  datatype Step<P> = Step(property: P, pushes: seq<Push>)

  // ----- register -----

  /** Ports input, enable, clock, clear (`PORT_ZERO`), output. */
  function RegisterWidths(n: nat): seq<nat> { [n, 1, 1, 1, n] }

  const REGISTER_OUT: nat := 4

  /** `Register.init`: the output starts at zero, or at the value the
      register held before its width changed, cut or zero-padded to the new
      width; that value is also stored. */
  function RegisterInit(n: nat, last: Option<WireValue>): (r: Step<WireValue>)
    ensures r.pushes == [Push(REGISTER_OUT, r.property)] && |r.property| == n
    ensures last.None? ==> r.property == Filled(n, ZERO)
    ensures last.Some? ==> forall i | 0 <= i < n ::
      r.property[i] == if i < |last.value| then last.value[i] else ZERO
  {
    OfSmall(n);
    var v := if last.None? then Of(0, n) else Resize(last.value, n);
    Step(v, [Push(REGISTER_OUT, v)])
  }

  /** `Register.valueChanged`. Output events are ignored. Clear at ONE forces
      zero whatever the clock; otherwise, with enable not ZERO, a clock event
      whose bit is ONE loads the last received input. Whatever is pushed is
      stored. */
  function RegisterChanged(n: nat, stored: WireValue, recv: Received, port: nat, value: WireValue): (r: Step<WireValue>)
    requires Fits(recv, RegisterWidths(n)) && port < 5 && |value| == RegisterWidths(n)[port]
    ensures r.pushes == [] ==> r.property == stored
    ensures r.pushes != [] ==> r.pushes == [Push(REGISTER_OUT, r.property)] && |r.property| == n
    ensures port == REGISTER_OUT ==> r.pushes == []
    ensures port != REGISTER_OUT && recv[3][0] == ONE ==> r.pushes != [] && r.property == Filled(n, ZERO)
    ensures port != REGISTER_OUT && recv[3][0] != ONE ==>
      (r.pushes != [] <==> recv[1][0] != ZERO && port == 2 && value[0] == ONE)
    ensures port != REGISTER_OUT && recv[3][0] != ONE && r.pushes != [] ==> r.property == recv[0]
  {
    OfSmall(n);
    if port == REGISTER_OUT then Step(stored, [])
    else if recv[3][0] == ONE then Step(Of(0, n), [Push(REGISTER_OUT, Of(0, n))])
    else if recv[1][0] != ZERO && port == 2 && value[0] == ONE then Step(recv[0], [Push(REGISTER_OUT, recv[0])])
    else Step(stored, [])
  }

  /** One event delivered to a component: the values last received on its
      ports (this event's included), the port, and the new value. */
  datatype Event = Event(recv: Received, port: nat, value: WireValue)

  predicate RegisterEvent(n: nat, e: Event)
  {
    Fits(e.recv, RegisterWidths(n)) && e.port < 5 && |e.value| == RegisterWidths(n)[e.port]
  }

  /** The register's property and all its pushes over a run of events. */
  function RegisterRun(n: nat, stored: WireValue, events: seq<Event>): (r: Step<WireValue>)
    requires forall j | 0 <= j < |events| :: RegisterEvent(n, events[j])
    decreases |events|
  {
    if events == [] then Step(stored, [])
    else
      var e := events[|events| - 1];
      assert RegisterEvent(n, e);
      var before := RegisterRun(n, stored, events[..|events| - 1]);
      var step := RegisterChanged(n, before.property, e.recv, e.port, e.value);
      Step(step.property, before.pushes + step.pushes)
  }

  /** Over any run of events the register's output, the last value it
      pushed, is always what it has stored; with no push at all the stored
      value is untouched. */
  lemma {:induction false} RegisterOutputIsStored(n: nat, stored: WireValue, events: seq<Event>)
    requires forall j | 0 <= j < |events| :: RegisterEvent(n, events[j])
    ensures var r := RegisterRun(n, stored, events);
      && (r.pushes == [] ==> r.property == stored)
      && (r.pushes != [] ==> r.pushes[|r.pushes| - 1] == Push(REGISTER_OUT, r.property))
      && forall j | 0 <= j < |r.pushes| :: r.pushes[j].port == REGISTER_OUT
  {
    if events != [] {
      var e := events[|events| - 1];
      var prefix := events[..|events| - 1];
      RegisterOutputIsStored(n, stored, prefix);
      var before := RegisterRun(n, stored, prefix);
      var step := RegisterChanged(n, before.property, e.recv, e.port, e.value);
      assert RegisterRun(n, stored, events).pushes == before.pushes + step.pushes;
    }
  }

  // ----- flip-flops -----

  /** `pushValue` of both flip-flops: Q shows the bit, the port after it
      (QN) its negation, and the bit is stored. */
  function Latch(q: nat, b: State): (r: Step<State>)
    ensures r.property == b
    ensures |r.pushes| == 2 && r.pushes[0] == Push(q, [b]) && r.pushes[1].port == q + 1
    ensures r.pushes[1].value == [Negate(b)]
  {
    Step(b, [Push(q, [b]), Push(q + 1, [Negate(b)])])
  }

  /** Whenever a flip-flop's outputs are driven, Q and QN are complements and
      each is the negation of the other. */
  lemma LatchComplements(q: nat, b: State)
    requires b != Z
    ensures var r := Latch(q, b);
      r.pushes[0].value[0] != r.pushes[1].value[0]
      && r.pushes[0].value == [Negate(r.pushes[1].value[0])]
  {
    NegateInvolution(b);
  }

  /** The flip-flops' `init`: ZERO, or the bit stored before. */
  function FlipFlopInit(q: nat, last: Option<State>): (r: Step<State>)
    ensures r.property == (if last.None? then ZERO else last.value)
    ensures r.pushes == Latch(q, r.property).pushes
  {
    Latch(q, if last.None? then ZERO else last.value)
  }

  /** A reset keeps a flip-flop's state: initialising again with the bit
      `init` stored gives the same outputs; a flip-flop with no bit before
      starts at Q = 0, QN = 1. */
  lemma FlipFlopReinit(q: nat, last: Option<State>)
    ensures FlipFlopInit(q, Some(FlipFlopInit(q, last).property)) == FlipFlopInit(q, last)
    ensures FlipFlopInit(q, None).pushes == [Push(q, [ZERO]), Push(q + 1, [ONE])]
  {
  }

  /** D flip-flop ports D, clock, enable, preset, clear, Q, QN: all one bit. */
  function DFlipFlopWidths(): seq<nat> { [1, 1, 1, 1, 1, 1, 1] }

  const D_Q: nat := 5

  /** `DFlipFlop.valueChanged`. Q and QN events are ignored. Clear at ONE
      resets, else preset at ONE sets, else a clock event with bit ONE and
      enable not ZERO loads D, unless D floats. */
  function DFlipFlopChanged(stored: State, recv: Received, port: nat, value: WireValue): (r: Step<State>)
    requires Fits(recv, DFlipFlopWidths()) && port < 7 && |value| == 1
    ensures r.pushes == [] ==> r.property == stored
    ensures r.pushes != [] ==> r == Latch(D_Q, r.property)
    ensures port >= D_Q ==> r.pushes == []
  {
    if port == D_Q || port == D_Q + 1 then Step(stored, [])
    else if recv[4][0] == ONE then Latch(D_Q, ZERO)
    else if recv[3][0] == ONE then Latch(D_Q, ONE)
    else if recv[2][0] != ZERO && port == 1 && value[0] == ONE && recv[0][0] != Z then Latch(D_Q, recv[0][0])
    else Step(stored, [])
  }

  /** The D flip-flop's next state, by priority: clear resets whatever the
      other inputs, preset sets unless cleared, and otherwise only an enabled
      rising clock changes the state, to D when D is driven. A flip-flop whose
      state is driven stays driven. */
  lemma DFlipFlopNextState(stored: State, recv: Received, port: nat, value: WireValue)
    requires Fits(recv, DFlipFlopWidths()) && port < D_Q && |value| == 1
    ensures var r := DFlipFlopChanged(stored, recv, port, value);
      && (recv[4][0] == ONE ==> r.property == ZERO && r.pushes != [])
      && (recv[4][0] != ONE && recv[3][0] == ONE ==> r.property == ONE && r.pushes != [])
      && (recv[4][0] != ONE && recv[3][0] != ONE ==>
            if recv[2][0] != ZERO && port == 1 && value[0] == ONE && recv[0][0] != Z
            then r.property == recv[0][0] && r.pushes != []
            else r.pushes == [])
      && (stored != Z ==> r.property != Z)
  {
  }

  /** SR flip-flop ports S, R, clock, enable, preset, clear, Q, QN: all one bit. */
  function SRFlipFlopWidths(): seq<nat> { [1, 1, 1, 1, 1, 1, 1, 1] }

  const SR_Q: nat := 6

  /** `SRFlipFlop.valueChanged`. Q and QN events are ignored. Clear at ONE
      resets, else preset at ONE sets; otherwise an enabled clock event with
      bit ONE sets on S=1, R=0, resets on S=0, R=1, and holds on anything
      else. */
  function SRFlipFlopChanged(stored: State, recv: Received, port: nat, value: WireValue): (r: Step<State>)
    requires Fits(recv, SRFlipFlopWidths()) && port < 8 && |value| == 1
    ensures r.pushes == [] ==> r.property == stored
    ensures r.pushes != [] ==> r == Latch(SR_Q, r.property) && r.property != Z
    ensures port >= SR_Q ==> r.pushes == []
  {
    if port == SR_Q || port == SR_Q + 1 then Step(stored, [])
    else if recv[5][0] == ONE then Latch(SR_Q, ZERO)
    else if recv[4][0] == ONE then Latch(SR_Q, ONE)
    else if recv[3][0] != ZERO && port == 2 && value[0] == ONE then
      var s, rr := recv[0][0], recv[1][0];
      if s == ONE && rr == ZERO then Latch(SR_Q, ONE)
      else if rr == ONE && s == ZERO then Latch(SR_Q, ZERO)
      else Step(stored, [])
    else Step(stored, [])
  }

  function AsBool(s: State): bool { s == ONE }

  /** On an enabled rising clock with neither clear nor preset, and S and R
      driven and not both ONE, the SR flip-flop follows its characteristic
      equation Q' = S or (not R and Q). S = R = ONE holds the state. */
  lemma SRFlipFlopCharacteristic(stored: State, recv: Received, value: WireValue)
    requires Fits(recv, SRFlipFlopWidths()) && value == [ONE]
    requires recv[5][0] != ONE && recv[4][0] != ONE && recv[3][0] != ZERO
    requires recv[0][0] != Z && recv[1][0] != Z && stored != Z
    ensures var r := SRFlipFlopChanged(stored, recv, 2, value);
      && (!(recv[0][0] == ONE && recv[1][0] == ONE) ==>
            AsBool(r.property) == (AsBool(recv[0][0]) || (!AsBool(recv[1][0]) && AsBool(stored))))
      && (recv[0][0] == ONE && recv[1][0] == ONE ==> r.property == stored && r.pushes == [])
      && r.property != Z
  {
  }

  /** Clear beats preset and preset beats the clock, on every input port. */
  lemma SRFlipFlopPriority(stored: State, recv: Received, port: nat, value: WireValue)
    requires Fits(recv, SRFlipFlopWidths()) && port < SR_Q && |value| == 1
    ensures var r := SRFlipFlopChanged(stored, recv, port, value);
      && (recv[5][0] == ONE ==> r == Latch(SR_Q, ZERO))
      && (recv[5][0] != ONE && recv[4][0] == ONE ==> r == Latch(SR_Q, ONE))
      && (recv[5][0] != ONE && recv[4][0] != ONE && !(port == 2 && value[0] == ONE && recv[3][0] != ZERO) ==>
            r == Step(stored, []))
  {
  }
}
