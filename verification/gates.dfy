/** Logic gates, the controlled buffer and the transistor (Gate.kt,
    ControlledBuffer.kt, Transistor.kt).

    A gate folds its inputs bit by bit with its operation, starting from
    input 0. A bit whose inputs are all floating comes out floating; the
    output may be negated, and so may each input before the fold. */
module Gates {
  import opened Wrappers
  import opened WireValues
  import opened Components

  /** The gate's `operate`: the base class's (used only by NOT, which has a
      single input and so never folds), AND, OR and XOR. */
  datatype Op = Base | And | Or | Xor

  datatype Gate = Gate(op: Op, bitSize: nat, numInputs: nat, negateInputs: seq<bool>, negateOutput: bool)

  /** The constructor's check that there is one negation flag per input. */
  function NewGate(op: Op, bitSize: nat, numInputs: nat, negateInputs: seq<bool>, negateOutput: bool): (r: Result<Gate>)
    ensures r.Success? <==> |negateInputs| == numInputs
    ensures r.Success? ==> r.value.op == op && r.value.bitSize == bitSize && r.value.numInputs == numInputs
                           && r.value.negateInputs == negateInputs && r.value.negateOutput == negateOutput
    ensures r.Failure? ==> r.error.IllegalArgument?
  {
    if |negateInputs| == numInputs then Success(Gate(op, bitSize, numInputs, negateInputs, negateOutput))
    else Failure(IllegalArgument("negateInputs array must be the same length as numInputs"))
  }

  predicate WellFormed(g: Gate)
  {
    |g.negateInputs| == g.numInputs
  }

  /** numInputs + 1 ports, all of the gate's width; the output is the last. */
  function Widths(g: Gate): (r: seq<nat>)
    ensures |r| == g.numInputs + 1
    ensures forall i | 0 <= i < |r| :: r[i] == g.bitSize
  {
    seq(g.numInputs + 1, _ => g.bitSize)
  }

  /** No negation flags set: the default `negateInputs`. */
  function Plain(n: nat): (r: seq<bool>)
    ensures |r| == n
  {
    seq(n, _ => false)
  }

  function NotGate(bitSize: nat): Gate { Gate(Base, bitSize, 1, Plain(1), true) }
  function NandGate(bitSize: nat, n: nat): Gate { Gate(And, bitSize, n, Plain(n), true) }
  function NorGate(bitSize: nat, n: nat): Gate { Gate(Or, bitSize, n, Plain(n), true) }
  function XnorGate(bitSize: nat, n: nat): Gate { Gate(Xor, bitSize, n, Plain(n), true) }

  // ----- the bit fold -----

  function Operate(op: Op, acc: State, bit: State): State
  {
    match op
    case Base => Z
    case And => if acc == ONE && bit == ONE then ONE else ZERO
    case Or => if acc == ONE || bit == ONE then ONE else ZERO
    case Xor => if acc != Z && bit != Z && acc != bit then ONE else ZERO
  }

  /** Folds the remaining input bits into the accumulator, left to right. */
  function Fold(op: Op, acc: State, bits: seq<State>): State
    decreases |bits|
  {
    if |bits| == 0 then acc else Fold(op, Operate(op, acc, bits[0]), bits[1..])
  }

  /** Bit `bit` of every input, each negated when its flag says so. */
  function InputBits(g: Gate, recv: Received, bit: nat): (r: seq<State>)
    requires WellFormed(g) && Fits(recv, Widths(g)) && bit < g.bitSize
    ensures |r| == g.numInputs
    ensures forall i | 0 <= i < g.numInputs :: (r[i] == Z) == (recv[i][bit] == Z)
  {
    seq(g.numInputs, i requires 0 <= i < g.numInputs =>
      if g.negateInputs[i] then Negate(recv[i][bit]) else recv[i][bit])
  }

  predicate AllFloating(bits: seq<State>)
  {
    forall i | 0 <= i < |bits| :: bits[i] == Z
  }

  /** One output bit: floating when every input bit is; otherwise the fold,
      with ONE turned to ZERO and anything else to ONE when negated. */
  function OutputBit(op: Op, negateOutput: bool, bits: seq<State>): State
    requires |bits| >= 1
  {
    if AllFloating(bits) then Z
    else
      var acc := Fold(op, bits[0], bits[1..]);
      if negateOutput then (if acc == ONE then ZERO else ONE) else acc
  }

  /** `Gate.valueChanged`: an event on the output is ignored; any other
      event recomputes every bit and pushes the result on the output. */
  function ValueChanged(g: Gate, recv: Received, port: nat, value: WireValue): (r: seq<Push>)
    requires WellFormed(g) && Fits(recv, Widths(g)) && port <= g.numInputs && |value| == g.bitSize
    ensures port == g.numInputs ==> r == []
    ensures port < g.numInputs ==> |r| == 1 && r[0].port == g.numInputs && |r[0].value| == g.bitSize
  {
    if port == g.numInputs then []
    else [Push(g.numInputs, seq(|value|, b requires 0 <= b < |value| => OutputBit(g.op, g.negateOutput, InputBits(g, recv, b))))]
  }

  // ----- what the fold computes -----

  predicate AllOne(bits: seq<State>)
  {
    forall i | 0 <= i < |bits| :: bits[i] == ONE
  }

  predicate AnyOne(bits: seq<State>)
  {
    exists i | 0 <= i < |bits| :: bits[i] == ONE
  }

  function CountOnes(bits: seq<State>): nat
  {
    if |bits| == 0 then 0 else BitWeight(bits[0]) + CountOnes(bits[1..])
  }

  /** The truth table each operation stands for. */
  predicate Truth(op: Op, bits: seq<State>)
  {
    match op
    case Base => false
    case And => AllOne(bits)
    case Or => AnyOne(bits)
    case Xor => CountOnes(bits) % 2 == 1
  }

  /** Once the accumulator is driven, the fold stays driven. */
  lemma {:induction false} FoldDriven(op: Op, acc: State, bits: seq<State>)
    requires op != Base && acc != Z
    ensures Fold(op, acc, bits) != Z
    decreases |bits|
  {
    if |bits| > 0 {
      FoldDriven(op, Operate(op, acc, bits[0]), bits[1..]);
    }
  }

  lemma {:induction false} FoldAnd(acc: State, bits: seq<State>)
    ensures Fold(And, acc, bits) == ONE <==> acc == ONE && AllOne(bits)
    decreases |bits|
  {
    if |bits| > 0 {
      FoldAnd(Operate(And, acc, bits[0]), bits[1..]);
      assert AllOne(bits) <==> bits[0] == ONE && AllOne(bits[1..]) by {
        if bits[0] == ONE && AllOne(bits[1..]) {
          forall i | 0 <= i < |bits| ensures bits[i] == ONE {
            if i > 0 { assert bits[i] == bits[1..][i - 1]; }
          }
        }
      }
    }
  }

  lemma {:induction false} FoldOr(acc: State, bits: seq<State>)
    ensures Fold(Or, acc, bits) == ONE <==> acc == ONE || AnyOne(bits)
    decreases |bits|
  {
    if |bits| > 0 {
      FoldOr(Operate(Or, acc, bits[0]), bits[1..]);
      assert AnyOne(bits) <==> bits[0] == ONE || AnyOne(bits[1..]) by {
        if AnyOne(bits) {
          var i :| 0 <= i < |bits| && bits[i] == ONE;
          if i > 0 { assert bits[1..][i - 1] == ONE; }
        }
        if AnyOne(bits[1..]) {
          var i :| 0 <= i < |bits[1..]| && bits[1..][i] == ONE;
          assert bits[i + 1] == ONE;
        }
      }
    }
  }

  lemma {:induction false} FoldXor(acc: State, bits: seq<State>)
    requires acc != Z && !(Z in bits)
    ensures Fold(Xor, acc, bits) == ONE <==> (BitWeight(acc) + CountOnes(bits)) % 2 == 1
    decreases |bits|
  {
    if |bits| > 0 {
      assert bits[0] in bits;
      assert !(Z in bits[1..]);
      FoldXor(Operate(Xor, acc, bits[0]), bits[1..]);
    }
  }

  /** Each output bit against the truth table of the gate's operation: it
      floats exactly when every input bit does, and otherwise it is ONE
      exactly when the truth table (negated for a negated output) holds.
      For XOR the inputs must all be driven; a floating XOR input resets
      the running result to ZERO. */
  lemma OutputBitTruth(op: Op, negateOutput: bool, bits: seq<State>)
    requires |bits| >= 1 && op != Base
    requires op == Xor ==> !(Z in bits)
    ensures (OutputBit(op, negateOutput, bits) == Z) <==> AllFloating(bits)
    ensures !AllFloating(bits) ==>
      (OutputBit(op, negateOutput, bits) == ONE <==> Truth(op, bits) != negateOutput)
  {
    if !AllFloating(bits) {
      var acc := Fold(op, bits[0], bits[1..]);
      assert bits == [bits[0]] + bits[1..];
      if |bits| > 1 {
        FoldOperated(op, bits[0], bits[1..]);
      }
      assert acc != Z;
      match op {
        case And =>
          FoldAnd(bits[0], bits[1..]);
          assert AllOne(bits) <==> bits[0] == ONE && AllOne(bits[1..]) by {
            if bits[0] == ONE && AllOne(bits[1..]) {
              forall i | 0 <= i < |bits| ensures bits[i] == ONE {
                if i > 0 { assert bits[i] == bits[1..][i - 1]; }
              }
            }
          }
        case Or =>
          FoldOr(bits[0], bits[1..]);
          assert AnyOne(bits) <==> bits[0] == ONE || AnyOne(bits[1..]) by {
            if AnyOne(bits) {
              var i :| 0 <= i < |bits| && bits[i] == ONE;
              if i > 0 { assert bits[1..][i - 1] == ONE; }
            }
            if AnyOne(bits[1..]) {
              var i :| 0 <= i < |bits[1..]| && bits[1..][i] == ONE;
              assert bits[i + 1] == ONE;
            }
          }
        case Xor =>
          assert bits[0] in bits;
          assert !(Z in bits[1..]);
          FoldXor(bits[0], bits[1..]);
      }
    }
  }

  /** Folding at least one bit gives a driven result. */
  lemma FoldOperated(op: Op, acc: State, bits: seq<State>)
    requires op != Base && |bits| > 0
    ensures Fold(op, acc, bits) != Z
  {
    FoldDriven(op, Operate(op, acc, bits[0]), bits[1..]);
  }

  /** What a gate pushes, bit by bit: a floating bit exactly when every
      (possibly negated) input bit floats, and otherwise ONE exactly when
      the operation's truth table, negated for a negated output, holds. */
  lemma GatePushesTruth(g: Gate, recv: Received, port: nat, value: WireValue, b: nat)
    requires WellFormed(g) && Fits(recv, Widths(g)) && port < g.numInputs && |value| == g.bitSize
    requires g.op != Base && b < g.bitSize
    requires g.op == Xor ==> !(Z in InputBits(g, recv, b))
    ensures var out := ValueChanged(g, recv, port, value)[0].value;
      && (out[b] == Z <==> forall i | 0 <= i < g.numInputs :: recv[i][b] == Z)
      && (out[b] != Z ==> (out[b] == ONE <==> Truth(g.op, InputBits(g, recv, b)) != g.negateOutput))
  {
    var bits := InputBits(g, recv, b);
    OutputBitTruth(g.op, g.negateOutput, bits);
  }

  /** NAND, NOR and XNOR are the negation of AND, OR and XOR. */
  lemma NegatedOutput(op: Op, bits: seq<State>)
    requires |bits| >= 1 && op != Base
    ensures OutputBit(op, true, bits) == Negate(OutputBit(op, false, bits))
  {
    if |bits| > 1 {
      FoldOperated(op, bits[0], bits[1..]);
    }
  }

  /** A NOT gate pushes the negation of its input, bit by bit. */
  lemma NotGateNegates(bitSize: nat, recv: Received)
    requires Fits(recv, Widths(NotGate(bitSize)))
    ensures ValueChanged(NotGate(bitSize), recv, 0, recv[0])
            == [Push(1, seq(bitSize, b requires 0 <= b < bitSize => Negate(recv[0][b])))]
  {
    var g := NotGate(bitSize);
    var out := ValueChanged(g, recv, 0, recv[0])[0].value;
    var expected := seq(bitSize, b requires 0 <= b < bitSize => Negate(recv[0][b]));
    forall b | 0 <= b < bitSize
      ensures out[b] == expected[b]
    {
      var bits := InputBits(g, recv, b);
      assert bits == [recv[0][b]];
      assert AllFloating(bits) <==> recv[0][b] == Z;
      assert out[b] == OutputBit(Base, true, bits);
    }
    assert out == expected;
  }

  // ----- controlled buffer and transistor -----

  /** Ports of the controlled buffer: input, one-bit enable, output. */
  function BufferWidths(bitSize: nat): seq<nat> { [bitSize, 1, bitSize] }

  /** `ControlledBuffer.valueChanged`: an output event is ignored; otherwise
      the output drives the input's value while the enable bit is ONE, and
      floats otherwise. */
  function BufferChanged(bitSize: nat, recv: Received, port: nat): (r: seq<Push>)
    requires Fits(recv, BufferWidths(bitSize)) && port < 3
    ensures port == 2 <==> r == []
    ensures r != [] ==> |r| == 1 && r[0].port == 2 && |r[0].value| == bitSize
  {
    if port == 2 then []
    else [Push(2, if recv[1][0] == ONE then recv[0] else Floating(bitSize))]
  }

  /** The bit that opens a transistor: ZERO for P-type, ONE for N-type. */
  function EnableBit(isPType: bool): State
  {
    if isPType then ZERO else ONE
  }

  /** `Transistor.valueChanged`: an output event is ignored; otherwise the
      output copies the input while the gate holds the enable bit, and is a
      one-bit Z otherwise. */
  function TransistorChanged(isPType: bool, recv: Received, port: nat): (r: seq<Push>)
    requires Fits(recv, [1, 1, 1]) && port < 3
    ensures port == 2 <==> r == []
    ensures r != [] ==> |r| == 1 && r[0].port == 2 && |r[0].value| == 1
  {
    if port == 2 then []
    else [Push(2, if recv[1][0] == EnableBit(isPType) then recv[0] else Floating(1))]
  }

  /** The two transistor types are complementary: on a driven gate exactly
      one of them conducts, and on a floating gate neither does. */
  lemma TransistorsComplementary(recv: Received, port: nat)
    requires Fits(recv, [1, 1, 1]) && port < 2
    ensures recv[1][0] != Z ==>
      (TransistorChanged(true, recv, port)[0].value == recv[0]
       || TransistorChanged(false, recv, port)[0].value == recv[0])
    ensures recv[1][0] != Z && recv[0] != Floating(1) ==>
      (TransistorChanged(true, recv, port)[0].value == recv[0]
       <==> TransistorChanged(false, recv, port)[0].value != recv[0])
    ensures recv[1][0] == Z ==>
      TransistorChanged(true, recv, port)[0].value == Floating(1)
      && TransistorChanged(false, recv, port)[0].value == Floating(1)
  {
  }

  /** A one-bit controlled buffer behaves as an N-type transistor. */
  lemma BufferIsNTransistor(recv: Received, port: nat)
    requires Fits(recv, [1, 1, 1]) && port < 3
    ensures BufferChanged(1, recv, port) == TransistorChanged(false, recv, port)
  {
  }
}
