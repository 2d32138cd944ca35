/** What every built-in component's `valueChanged` works with.

    A component reads the value each of its ports last received in the
    current circuit state and answers with the values it pushes, in order.
    The engine keeps every received value as wide as its port, which is the
    precondition `Fits` states. */
module Components {
  import opened WireValues

  /** `state.pushValue(getPort(port), value)`. */
  datatype Push = Push(port: nat, value: WireValue)

  /** The value last received on each port, indexed by port. */
  type Received = seq<WireValue>

  /** Every received value is exactly as wide as its port. */
  predicate Fits(recv: Received, widths: seq<nat>)
  {
    |recv| == |widths| && forall i | 0 <= i < |recv| :: |recv[i]| == widths[i]
  }

  /** The ports a sequence of pushes writes to, in order. */
  function Targets(pushes: seq<Push>): (r: seq<nat>)
    ensures |r| == |pushes|
    ensures forall i | 0 <= i < |pushes| :: r[i] == pushes[i].port
  {
    seq(|pushes|, i requires 0 <= i < |pushes| => pushes[i].port)
  }
}
