/** Failure-carrying results shared by every module of the model.

    The simulator reports errors by throwing; the model returns them as a
    `Failure` whose `Fault` names the exception class the source throws. */
module Wrappers {

  /** The exception classes the modelled code throws. */
  datatype Fault =
    | IllegalArgument(msg: string)   // `require` failures, IllegalArgumentException
    | IllegalState(msg: string)      // `check` failures, IllegalStateException
    | ShortCircuit                   // ShortCircuitException
    | Oscillation                    // OscillationException
    | Simulation(msg: string)        // SimulationException
    | IndexOutOfBounds               // ArrayIndexOutOfBoundsException
    | NullPointer                    // a `!!` or `checkNotNull` on null
    | Runtime(msg: string)           // a plain RuntimeException
    | StackOverflow                  // unbounded recursion exhausting the stack
    | Component(id: nat)             // a RuntimeException raised by component code

  /** The conventional Some/None datatype, used where the source has a nullable value. */
  datatype Option<+T> = None | Some(value: T) {
    function GetOr(default: T): T {
      match this
      case Some(v) => v
      case None => default
    }
  }

  /** The state an operation leaves behind, and the exception it throws
      afterwards, if any (the source often mutates first and throws last). */
  datatype Outcome<+T> = Outcome(value: T, fault: Option<Fault>)

  /** A computation that either returns a value or throws a `Fault`. */
  datatype Result<+T> = Success(value: T) | Failure(error: Fault) {
    predicate IsFailure() {
      Failure?
    }

    function PropagateFailure<U>(): Result<U>
      requires Failure?
    {
      Failure(error)
    }

    function Extract(): T
      requires Success?
    {
      value
    }
  }
}
