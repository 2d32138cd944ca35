# CircuitSim core in Dafny

CircuitSim is a digital-logic simulator with a grid-based circuit editor.
This project models its core as pure Dafny functions and proves what the
code promises about them.

The simulator side:

- `WireValues`: the three-state bit vectors that travel on wires, with their merge, conversions and printing.
- Component transfer functions, in `Gates`, `Adders`, `Multipliers`, `TwosComplement`, `Shifters`, `Splitters`, `Plexers`, `Registers`, `Memories` and `Addressing`. Each component's `valueChanged` is a function from the values last received on its ports, and its stored property, to the values it pushes.
- `Netlist`: ports, links and components.
- `CircuitStates`: the per-state link values and their propagation.
- `Circuits`: component membership.
- `Simulator`: the pending queue, stepping, deferred short circuits and oscillation detection.
- `Subcircuits`: subcircuit port layout and loop detection.

The editor side:

- `Wires`: wire geometry.
- `Links`: the nets of wires and ports, and their regrouping.
- `GuiElements` and `Connections`: element and connection geometry.
- `Boards`: the board's point-to-connection index.
- Board operations:
  - `Wiring` adds wires;
  - `Splices` cuts wires;
  - `Rejoining` rejoins wires;
  - `Removal` and `Erasing` remove elements;
  - `Placement` adds and removes components;
  - `Moves` handles drag and drop;
  - `Routing` computes wire routes for dragged ports.
- `PathFinding`: the grid route search.
- `EditHistory`: the undo and redo stacks.
- `GuiUtil`: port rotation.
- `IntegerStrings`: integer property text.
- `ListValidators`: list-valued properties.
- `Versions`: version strings.

Representation choices:

- On the simulator side (wire values, components, memories, integer and version text) Kotlin `Int` and `Long` arithmetic is written out with explicit 32- and 64-bit wrap-around (`BitMath`). The editor's grid coordinates are unbounded integers; the Left out section says what that leaves out.
- Exceptions become the `Failure` case of a `Result`. The fault names the exception class, and carries the source's message wherever that message is built from constants, widths and names. The faults named in the Left out section carry their class only.
- Hash sets become duplicate-free sequences, so any order the code depends on is an explicit input.
- Mutable objects become values that each operation returns updated.

## Model

| member | source | states |
|---|---|---|
| WireValues.Negate | src/main/kotlin/com/ra4king/circuitsim/simulator/WireValue.kt:14-18 | a floating bit stays floating and only a floating bit does; a driven bit always flips |
| WireValues.NegateInvolution | src/main/kotlin/com/ra4king/circuitsim/simulator/WireValue.kt:14-18 | negating a bit twice gives it back |
| WireValues.Resize | src/main/kotlin/com/ra4king/circuitsim/simulator/WireValue.kt:24-26 | the resizing copy has the new width, keeps the low bits when narrowing and keeps every bit and pads ZERO above when widening |
| WireValues.ResizeRoundTrip | src/main/kotlin/com/ra4king/circuitsim/simulator/WireValue.kt:24-26 | widening a value and narrowing it back restores it |
| WireValues.SetToLastWins | src/main/kotlin/com/ra4king/circuitsim/simulator/WireValue.kt:46-50 | copying keeps the target's width and leaves it equal to the other value; copying again overrides the first copy, and copying the value already held changes nothing |
| WireValues.MergeBits | src/main/kotlin/com/ra4king/circuitsim/simulator/WireValue.kt:31-36 | the bit loop fails with a short circuit exactly when two driven bits disagree; otherwise every bit is the driven one of the pair |
| WireValues.Merge | src/main/kotlin/com/ra4king/circuitsim/simulator/WireValue.kt:28-38 | different widths are an IllegalArgument whose message names the wanted and the found width, a conflict is a short circuit, and success means equal widths and no conflict, with the per-bit merge |
| WireValues.MergeFloating | src/main/kotlin/com/ra4king/circuitsim/simulator/WireValue.kt:28-38 | an all-floating value of the same width is an identity on either side of a merge |
| WireValues.MergeCommutes | src/main/kotlin/com/ra4king/circuitsim/simulator/WireValue.kt:28-38 | merge succeeds in one order iff in the other, and then gives the same value |
| WireValues.MergeIdempotent | src/main/kotlin/com/ra4king/circuitsim/simulator/WireValue.kt:28-38 | merging a value with itself gives it back |
| WireValues.UValue | src/main/kotlin/com/ra4king/circuitsim/simulator/WireValue.kt:65-73 | the unsigned reading of n bits is below 2^n |
| WireValues.Value | src/main/kotlin/com/ra4king/circuitsim/simulator/WireValue.kt:65-73 | the getter fails with "Invalid value" exactly when a bit floats; otherwise it is a 32-bit Int, and up to 32 bits it is congruent to the unsigned reading modulo 2^32 |
| WireValues.ValueBits | src/main/kotlin/com/ra4king/circuitsim/simulator/WireValue.kt:65-73 | at any width, bit j of the getter's Int is set exactly when some ONE bit of the value sits at a position congruent to j modulo 32, because a Kotlin `Int` shift counts modulo 32 |
| WireValues.FoldedBits | src/main/kotlin/com/ra4king/circuitsim/simulator/WireValue.kt:65-73 | the OR loop sets bit j of its 32-bit accumulator exactly when a ONE bit sits at a position congruent to j modulo 32 |
| WireValues.ValueFolded | src/main/kotlin/com/ra4king/circuitsim/simulator/WireValue.kt:65-73 | the getter's Int, read as 32 unsigned bits, is the OR accumulator |
| WireValues.FoldedSmall | src/main/kotlin/com/ra4king/circuitsim/simulator/WireValue.kt:65-73 | up to 32 bits the accumulator holds the value's own bits with ZERO above, so it reads as the unsigned reading |
| WireValues.ValueFolds33 | src/main/kotlin/com/ra4king/circuitsim/simulator/WireValue.kt:65-73 | a 33-bit value whose only ONE is bit 32 reads as 1, although its unsigned reading is 0 modulo 2^32 |
| WireValues.ValidIffValue | src/main/kotlin/com/ra4king/circuitsim/simulator/WireValue.kt:62-73 | a value is valid exactly when it is non-empty and its value getter succeeds |
| WireValues.ValueSmall | src/main/kotlin/com/ra4king/circuitsim/simulator/WireValue.kt:65-73 | below 32 bits the Int value equals the unsigned reading |
| WireValues.Of | src/main/kotlin/com/ra4king/circuitsim/simulator/WireValue.kt:52-56 | `of(v, n)` has width n and no floating bit |
| WireValues.OfSmall | src/main/kotlin/com/ra4king/circuitsim/simulator/WireValue.kt:52-56 | `of(0, n)` is all ZERO and `of(1, 1)` is a single ONE |
| WireValues.OfUValue | src/main/kotlin/com/ra4king/circuitsim/simulator/WireValue.kt:52-56 | up to 64 bits, the unsigned reading of `of(v, n)` is v mod 2^n, negative v included |
| WireValues.OfCongruent | src/main/kotlin/com/ra4king/circuitsim/simulator/WireValue.kt:52-56 | up to 32 bits, numbers congruent modulo 2^32 give the same bits |
| WireValues.OfValue | src/main/kotlin/com/ra4king/circuitsim/simulator/WireValue.kt:52-73 | below 32 bits, reading back `of(v, n)` gives v mod 2^n |
| WireValues.ValueOfInt | src/main/kotlin/com/ra4king/circuitsim/simulator/WireValue.kt:52-73 | a 32-bit `of` of any Int reads back as that Int |
| WireValues.BitsOfUValue | src/main/kotlin/com/ra4king/circuitsim/simulator/WireValue.kt:52-73 | converting a driven value to its number and back gives it back, at any width |
| WireValues.OfUValueRoundTrip | src/main/kotlin/com/ra4king/circuitsim/simulator/WireValue.kt:52-73 | up to 64 bits, `of(unsigned reading, width)` gives the value back |
| WireValues.UValueInjective | src/main/kotlin/com/ra4king/circuitsim/simulator/WireValue.kt:65-73 | two driven values of one width with the same reading are equal |
| WireValues.BitOfUValue | src/main/kotlin/com/ra4king/circuitsim/simulator/WireValue.kt:65-73 | bit i of the reading is set exactly when bit i is ONE |
| WireValues.ToString | src/main/kotlin/com/ra4king/circuitsim/simulator/WireValue.kt:86-92 | one character per bit |
| WireValues.FromString | src/main/kotlin/com/ra4king/circuitsim/simulator/WireValue.kt:86-92 | reading text back gives one bit per character |
| WireValues.ToStringRoundTrip | src/main/kotlin/com/ra4king/circuitsim/simulator/WireValue.kt:86-92 | reading back the printed text gives the value back |
| WireValues.HexStringInvalid | src/main/kotlin/com/ra4king/circuitsim/simulator/WireValue.kt:75-77 | an invalid value prints as one 'z' per nibble, and at least one |
| WireValues.HexStringValid | src/main/kotlin/com/ra4king/circuitsim/simulator/WireValue.kt:75-77 | at every width a valid value prints 1 + (bitSize-1)/4 hexadecimal digits that read back as the getter's Int taken unsigned: the OR-folded 32 bits, which up to 32 bits is the unsigned reading |
| WireValues.HexStringFolds33 | src/main/kotlin/com/ra4king/circuitsim/simulator/WireValue.kt:75-77 | the 33-bit value whose only ONE is bit 32 prints as 000000001, because the getter folds bit 32 onto bit 0 |
| WireValues.EqualsIsIdentity | src/main/kotlin/com/ra4king/circuitsim/simulator/WireValue.kt:83-84 | `equals` (same width, same bits) holds exactly for identical values |
| TwosComplement.NegatorChanged | src/main/kotlin/com/ra4king/circuitsim/simulator/components/arithmetic/Negator.kt:15-28 | an output event pushes nothing; an input event pushes one n-bit value on the output, floating exactly when the input is invalid and fully driven otherwise |
| TwosComplement.NegatorNegates | src/main/kotlin/com/ra4king/circuitsim/simulator/components/arithmetic/Negator.kt:20-27 | up to 32 bits the output reads as minus the input modulo 2^n |
| TwosComplement.NegatorInvolution | src/main/kotlin/com/ra4king/circuitsim/simulator/components/arithmetic/Negator.kt:20-27 | feeding the negator's output back through it gives the original input |
| TwosComplement.ComparatorChanged | src/main/kotlin/com/ra4king/circuitsim/simulator/components/arithmetic/Comparator.kt:12-46 | three pushes to LT, EQ and GT; all three float exactly when an input is invalid; otherwise exactly one flag is ONE |
| TwosComplement.ComparatorCompares | src/main/kotlin/com/ra4king/circuitsim/simulator/components/arithmetic/Comparator.kt:16-39 | for widths 1 to 32 the flags compare the two's-complement readings when signed and the unsigned readings otherwise |
| TwosComplement.ExtenderChanged | src/main/kotlin/com/ra4king/circuitsim/simulator/components/arithmetic/BitExtender.kt:23-38 | an input event pushes one value of the output width that keeps the low bits; sign-extending a zero-width input fails with an index error; output events push nothing |
| TwosComplement.ExtenderTruncates | src/main/kotlin/com/ra4king/circuitsim/simulator/components/arithmetic/BitExtender.kt:25-37 | narrowing yields the input's reading modulo 2^out |
| TwosComplement.ExtenderZeroExtends | src/main/kotlin/com/ra4king/circuitsim/simulator/components/arithmetic/BitExtender.kt:25-37 | zero-extension keeps the unsigned reading |
| TwosComplement.ExtenderOneExtends | src/main/kotlin/com/ra4king/circuitsim/simulator/components/arithmetic/BitExtender.kt:26-34 | one-extension adds 2^out - 2^in to the unsigned reading |
| TwosComplement.ExtenderSignExtends | src/main/kotlin/com/ra4king/circuitsim/simulator/components/arithmetic/BitExtender.kt:26-34 | sign-extension of a non-empty input keeps the two's-complement reading |
| TwosComplement.ExtenderRoundTrip | src/main/kotlin/com/ra4king/circuitsim/simulator/components/arithmetic/BitExtender.kt:23-38 | narrowing the widened output back to the input width gives the input back, for every extension type |
| TwosComplement.SignFill | src/main/kotlin/com/ra4king/circuitsim/simulator/components/arithmetic/BitExtender.kt:28-33 | copying the sign bit into new high bits keeps the two's-complement reading |
| Adders.Ripple | src/main/kotlin/com/ra4king/circuitsim/simulator/components/arithmetic/Adder.kt:27-40 | the ripple loop yields n driven sum bits and a driven carry |
| Adders.RippleAdds | src/main/kotlin/com/ra4king/circuitsim/simulator/components/arithmetic/Adder.kt:27-40 | the sum bits plus 2^n times the final carry equal A + B + carry-in on the unsigned readings |
| Adders.AdderChanged | src/main/kotlin/com/ra4king/circuitsim/simulator/components/arithmetic/Adder.kt:12-48 | output events push nothing; input events push the sum (n bits) and the carry (1 bit), both floating exactly when an input is invalid |
| Adders.AdderSum | src/main/kotlin/com/ra4king/circuitsim/simulator/components/arithmetic/Adder.kt:17-43 | with valid inputs the outputs are driven and sum + 2^n * carry-out == A + B + carry-in, at every width |
| Adders.SubtractorChanged | src/main/kotlin/com/ra4king/circuitsim/simulator/components/arithmetic/Subtractor.kt:14-35 | output events push nothing; input events push the difference and the borrow, both floating when an input is invalid |
| Adders.SubtractorDifference | src/main/kotlin/com/ra4king/circuitsim/simulator/components/arithmetic/Subtractor.kt:23-29 | up to 32 bits the difference output reads as A - B - carry-in modulo 2^n |
| Adders.SubtractorBorrowNarrow | src/main/kotlin/com/ra4king/circuitsim/simulator/components/arithmetic/Subtractor.kt:23-30 | below 32 bits the borrow is ONE exactly when A < B + carry-in |
| Adders.SubtractorBorrowAt32 | src/main/kotlin/com/ra4king/circuitsim/simulator/components/arithmetic/Subtractor.kt:23-30 | at 32 bits, A = 0x80000000, B = 0 and carry-in 0 give borrow ONE although A >= B (the first finding, as written) |
| Adders.BorrowSubtractorChanged | src/main/kotlin/com/ra4king/circuitsim/simulator/components/arithmetic/Subtractor.kt:14-35 | the corrected subtractor keeps the event shape and the floating outputs of the source |
| Adders.BorrowSubtractorEquation | src/main/kotlin/com/ra4king/circuitsim/simulator/components/arithmetic/Subtractor.kt:23-30 | for the corrected subtractor, at every width, borrow is ONE iff A < B + carry-in and out - 2^n * borrow == A - B - carry-in |
| Adders.SubtractorsAgreeNarrow | src/main/kotlin/com/ra4king/circuitsim/simulator/components/arithmetic/Subtractor.kt:14-35 | below 32 bits the source's subtractor and the corrected one give the same pushes |
| Multipliers.MultiplierChanged | src/main/kotlin/com/ra4king/circuitsim/simulator/components/arithmetic/Multiplier.kt:13-36 | output events push nothing; input events push the lower and upper halves, both floating when an input is invalid |
| Multipliers.MultiplierProduct | src/main/kotlin/com/ra4king/circuitsim/simulator/components/arithmetic/Multiplier.kt:22-31 | up to 32 bits, lower + 2^n * upper == A * B + carry-in on the unsigned readings |
| Multipliers.DividerChanged | src/main/kotlin/com/ra4king/circuitsim/simulator/components/arithmetic/Divider.kt:13-33 | output events push nothing; input events push quotient and remainder, both floating when an input is invalid |
| Multipliers.DividerByZero | src/main/kotlin/com/ra4king/circuitsim/simulator/components/arithmetic/Divider.kt:24-28 | a zero divisor passes the dividend through as the quotient and gives a zero remainder |
| Multipliers.DividerUnsigned | src/main/kotlin/com/ra4king/circuitsim/simulator/components/arithmetic/Divider.kt:21-28 | below 32 bits, quotient and remainder are the unsigned quotient and remainder and recombine into the dividend |
| Multipliers.DividerSigned | src/main/kotlin/com/ra4king/circuitsim/simulator/components/arithmetic/Divider.kt:21-28 | at 32 bits the outputs follow Kotlin's truncating Int division: dividend == q * divisor + r with abs(r) < abs(divisor) and r taking the dividend's sign, and Int.MIN_VALUE / -1 gives Int.MIN_VALUE and 0 |
| Multipliers.QuotientInRange | src/main/kotlin/com/ra4king/circuitsim/simulator/components/arithmetic/Divider.kt:24 | a truncated Int quotient fits an Int except for Int.MIN_VALUE / -1 |
| Shifters.ShiftBits | src/main/kotlin/com/ra4king/circuitsim/simulator/components/arithmetic/Shifter.kt:60-62 | the shift port is the least width of at least one bit that can hold the data width: n <= 2^k, and 2^(k-1) < n when k > 1; it is one bit exactly for widths up to 2 |
| Shifters.Shifted | src/main/kotlin/com/ra4king/circuitsim/simulator/components/arithmetic/Shifter.kt:31-55 | a shift keeps the width, and fails (index out of bounds) only for a left rotation by more than the width |
| Shifters.ShifterChanged | src/main/kotlin/com/ra4king/circuitsim/simulator/components/arithmetic/Shifter.kt:21-58 | output events push nothing; an invalid shift amount pushes a floating output; otherwise one push of the shifted input |
| Shifters.ShiftAmount | src/main/kotlin/com/ra4king/circuitsim/simulator/components/arithmetic/Shifter.kt:34 | a valid shift amount's Int value is its unsigned reading |
| Shifters.RotateLeftFailsIff | src/main/kotlin/com/ra4king/circuitsim/simulator/components/arithmetic/Shifter.kt:37-38 | a left rotation of two or more bits fails exactly when the shift exceeds the width; one bit or none never fails |
| Shifters.RotateRoundTrip | src/main/kotlin/com/ra4king/circuitsim/simulator/components/arithmetic/Shifter.kt:37-44 | rotating right by s undoes rotating left by s, for s up to the width |
| Shifters.RotateRightByWidth | src/main/kotlin/com/ra4king/circuitsim/simulator/components/arithmetic/Shifter.kt:43-44 | rotating right by the full width gives the input back |
| Shifters.LogicalLeftReading | src/main/kotlin/com/ra4king/circuitsim/simulator/components/arithmetic/Shifter.kt:40-41 | a logical left shift fills s ZERO bits at the bottom and reads as 2^s times the low bits; past the width it is all ZERO |
| Shifters.LogicalRightReading | src/main/kotlin/com/ra4king/circuitsim/simulator/components/arithmetic/Shifter.kt:52-53 | a logical right shift reads as the unsigned reading divided by 2^s |
| Shifters.ArithmeticRightReading | src/main/kotlin/com/ra4king/circuitsim/simulator/components/arithmetic/Shifter.kt:46-50 | an arithmetic right shift by less than the width copies the sign bit in and divides the two's-complement reading by 2^s, rounding down |
| Shifters.CeilLog2 | src/main/kotlin/com/ra4king/circuitsim/simulator/components/arithmetic/Shifter.kt:61 | the least k with n <= 2^k, the integer reading of ceil(ln n / ln 2) |
| Gates.NewGate | src/main/kotlin/com/ra4king/circuitsim/simulator/components/gates/Gate.kt:12-22 | construction succeeds exactly when there is one negation flag per input, keeping the parameters, and fails with IllegalArgument otherwise |
| Gates.InputBits | src/main/kotlin/com/ra4king/circuitsim/simulator/components/gates/Gate.kt:32-40 | one bit per input, floating exactly where the input bit floats (negation keeps Z) |
| Gates.ValueChanged | src/main/kotlin/com/ra4king/circuitsim/simulator/components/gates/Gate.kt:27-57 | an output event pushes nothing; an input event pushes one value of the gate's width on the output port |
| Gates.FoldAnd | src/main/kotlin/com/ra4king/circuitsim/simulator/components/gates/Gate.kt:69-71 | the AND fold is ONE exactly when the accumulator and every bit are ONE |
| Gates.FoldOr | src/main/kotlin/com/ra4king/circuitsim/simulator/components/gates/Gate.kt:82-84 | the OR fold is ONE exactly when the accumulator or some bit is ONE |
| Gates.FoldXor | src/main/kotlin/com/ra4king/circuitsim/simulator/components/gates/Gate.kt:95-97 | on driven bits the XOR fold is ONE exactly when the number of ONE bits is odd |
| Gates.FoldDriven | src/main/kotlin/com/ra4king/circuitsim/simulator/components/gates/Gate.kt:38-44 | once the accumulator is driven, the fold stays driven |
| Gates.OutputBitTruth | src/main/kotlin/com/ra4king/circuitsim/simulator/components/gates/Gate.kt:31-53 | an output bit floats exactly when every input bit floats; otherwise it is ONE exactly when the operation's truth table, xor the output negation, holds |
| Gates.GatePushesTruth | src/main/kotlin/com/ra4king/circuitsim/simulator/components/gates/Gate.kt:27-57 | bit b of the pushed output floats iff bit b of every input floats, and otherwise follows the truth table of the (negated) inputs |
| Gates.NegatedOutput | src/main/kotlin/com/ra4king/circuitsim/simulator/components/gates/Gate.kt:100-109 | NAND, NOR and XNOR output the negation of AND, OR and XOR |
| Gates.NotGateNegates | src/main/kotlin/com/ra4king/circuitsim/simulator/components/gates/Gate.kt:100 | a NOT gate pushes the bitwise negation of its input, floating bits staying floating |
| Gates.BufferChanged | src/main/kotlin/com/ra4king/circuitsim/simulator/components/gates/ControlledBuffer.kt:15-23 | an output event pushes nothing; otherwise one push of the buffer's width on the output |
| Gates.TransistorChanged | src/main/kotlin/com/ra4king/circuitsim/simulator/components/wiring/Transistor.kt:15-20 | an output event pushes nothing; otherwise one one-bit push on the output |
| Gates.TransistorsComplementary | src/main/kotlin/com/ra4king/circuitsim/simulator/components/wiring/Transistor.kt:13-19 | on a driven gate one of the P and N transistors conducts and, for a driven input, exactly one; on a floating gate both output Z |
| Gates.BufferIsNTransistor | src/main/kotlin/com/ra4king/circuitsim/simulator/components/gates/ControlledBuffer.kt:15-23 | a one-bit controlled buffer pushes exactly what an N-type transistor pushes |
| Plexers.MuxSelection | src/main/kotlin/com/ra4king/circuitsim/simulator/components/plexers/Multiplexer.kt:26-45 | the value the output should show has the data width |
| Plexers.MuxChanged | src/main/kotlin/com/ra4king/circuitsim/simulator/components/plexers/Multiplexer.kt:26-45 | at most one push, always to the output port with the data width |
| Plexers.MuxFollowsSelection | src/main/kotlin/com/ra4king/circuitsim/simulator/components/plexers/Multiplexer.kt:26-45 | a selector event pushes the selected input when it and the selector are valid and Z otherwise; a data event that pushes a valid value pushes the selection, and one that pushes nothing cannot change the selection; an invalid selected input is passed through as it is by a data event; output events push nothing |
| Plexers.DemuxOutput | src/main/kotlin/com/ra4king/circuitsim/simulator/components/plexers/Demultiplexer.kt:33-47 | each output's expected value has the data width |
| Plexers.DemuxChanged | src/main/kotlin/com/ra4king/circuitsim/simulator/components/plexers/Demultiplexer.kt:30-52 | every push goes to an output port with the data width |
| Plexers.DemuxFollowsSelection | src/main/kotlin/com/ra4king/circuitsim/simulator/components/plexers/Demultiplexer.kt:30-52 | a selector event pushes every output its expected value; an input event with a valid selector pushes only the selected output, and no other output depends on the input; other events push nothing |
| Plexers.DecoderChanged | src/main/kotlin/com/ra4king/circuitsim/simulator/components/plexers/Decoder.kt:23-42 | only selector events push, one per output in order; an invalid selector floats all of them, a valid one sets exactly the selected output |
| Plexers.HighestActive | src/main/kotlin/com/ra4king/circuitsim/simulator/components/plexers/PriorityEncoder.kt:34-42 | the loop finds the highest set input, or -1 when none is set |
| Plexers.EncoderChanged | src/main/kotlin/com/ra4king/circuitsim/simulator/components/plexers/PriorityEncoder.kt:19-53 | the enable flag follows the enable input's events and persists otherwise; every event pushes three values |
| Plexers.EncoderOutputsHighest | src/main/kotlin/com/ra4king/circuitsim/simulator/components/plexers/PriorityEncoder.kt:26-52 | disabled: enable-out 0, output Z, group 0; enabled with nothing set: enable-out 1; otherwise group 1 and the output is the index of the highest set input |
| Plexers.DecodeThenEncode | src/main/kotlin/com/ra4king/circuitsim/simulator/components/plexers/Decoder.kt:31-39 | priority-encoding a decoder's outputs gives back the selector the decoder was given |
| Registers.RegisterInit | src/main/kotlin/com/ra4king/circuitsim/simulator/components/memory/Register.kt:13-17 | init pushes the stored value on the output: zero without a previous property, otherwise the previous value resized to the width (low bits kept, ZERO above) |
| Registers.RegisterChanged | src/main/kotlin/com/ra4king/circuitsim/simulator/components/memory/Register.kt:19-35 | output events do nothing; clear at ONE pushes and stores zero; otherwise a push happens exactly on a rising clock event with enable not ZERO, and stores and pushes the input; no push means the stored value is kept |
| Registers.RegisterOutputIsStored | src/main/kotlin/com/ra4king/circuitsim/simulator/components/memory/Register.kt:19-35 | after any run of events every push is on the output and the last one is the stored value; a run without pushes keeps the stored value |
| Registers.LatchComplements | src/main/kotlin/com/ra4king/circuitsim/simulator/components/memory/DFlipFlop.kt:13-17 | for a driven bit, Q and QN always differ and each is the negation of the other |
| Registers.FlipFlopReinit | src/main/kotlin/com/ra4king/circuitsim/simulator/components/memory/DFlipFlop.kt:19-21 | a reset keeps the state: initialising again with the bit init stored gives the same outputs; with no bit before, Q starts at 0 and QN at 1 |
| Registers.DFlipFlopChanged | src/main/kotlin/com/ra4king/circuitsim/simulator/components/memory/DFlipFlop.kt:23-42 | a push is always a full latch of the new property; Q and QN events do nothing; no push keeps the stored bit |
| Registers.DFlipFlopNextState | src/main/kotlin/com/ra4king/circuitsim/simulator/components/memory/DFlipFlop.kt:28-41 | clear wins and gives ZERO, then preset gives ONE; otherwise D is latched exactly on a rising clock with enable not ZERO and D driven; a driven stored bit stays driven |
| Registers.SRFlipFlopChanged | src/main/kotlin/com/ra4king/circuitsim/simulator/components/memory/SRFlipFlop.kt:22-45 | a push is a full latch of a driven bit; Q and QN events do nothing; no push keeps the stored bit |
| Registers.SRFlipFlopCharacteristic | src/main/kotlin/com/ra4king/circuitsim/simulator/components/memory/SRFlipFlop.kt:35-43 | on a rising enabled clock with driven S and R, the next state is S or (not R and Q), and S = R = 1 keeps the state without a push |
| Registers.SRFlipFlopPriority | src/main/kotlin/com/ra4king/circuitsim/simulator/components/memory/SRFlipFlop.kt:27-44 | clear beats preset and preset beats the clock on every input port; without them only a rising enabled clock can change anything |
| Addressing.Choices | src/main/kotlin/com/ra4king/circuitsim/simulator/components/memory/Addressability.kt:6-8 | the modes offered for a data width, in declaration order: exactly those whose condition holds, WORD always last |
| Addressing.AddressabilityTable | src/main/kotlin/com/ra4king/circuitsim/simulator/components/memory/Addressability.kt:36 | 32 properties defaulting to WORD; BYTE is offered only at widths 16 and 32, HALF_WORD only at 32 |
| Addressing.Bpw | src/main/kotlin/com/ra4king/circuitsim/simulator/components/memory/Addressability.kt:15-19 | bytes per word is 1, 2 or 4 |
| Addressing.Divisor | src/main/kotlin/com/ra4king/circuitsim/simulator/components/memory/Addressability.kt:21-33 | the divisor is 1, 2 or 4, and 1 for WORD or for widths other than 16 and 32 |
| Addressing.Effective | src/main/kotlin/com/ra4king/circuitsim/simulator/components/memory/Addressability.kt:21-33 | a non-negative address maps to a word index between 0 and itself, and to itself for WORD or for widths other than 16 and 32 |
| Addressing.EffectiveGroups | src/main/kotlin/com/ra4king/circuitsim/simulator/components/memory/Addressability.kt:21-33 | exactly divisor-many consecutive addresses share each word index |
| Addressing.BytesPerWord | src/main/kotlin/com/ra4king/circuitsim/simulator/components/memory/Addressability.kt:15-33 | for every width a memory can have and every mode offered at it, divisor times bytes per word is 4 |
| Memories.NewRom | src/main/kotlin/com/ra4king/circuitsim/simulator/components/memory/ROM.kt:12-26 | construction succeeds exactly for 1 to 20 address bits, with a zeroed memory of 2^netAddrBits words; otherwise IllegalArgument |
| Memories.InitMemory | src/main/kotlin/com/ra4king/circuitsim/simulator/components/memory/ROM.kt:28-30 | the first min(words, size) words are copied in and every other word is kept |
| Memories.RomLoad | src/main/kotlin/com/ra4king/circuitsim/simulator/components/memory/ROM.kt:47 | a load succeeds exactly when the effective address is in range, and otherwise is an index error |
| Memories.RomStore | src/main/kotlin/com/ra4king/circuitsim/simulator/components/memory/ROM.kt:49-53 | a store succeeds exactly when the effective address is in range, keeps the size and tells the listeners the word index and value |
| Memories.RomStoreThenLoad | src/main/kotlin/com/ra4king/circuitsim/simulator/components/memory/ROM.kt:47-53 | after a store, every address with the same word index loads the stored value and every other address loads what it did before |
| Memories.LoadWireValue | src/main/kotlin/com/ra4king/circuitsim/simulator/components/memory/ROM.kt:44-45 | null exactly for an address outside [0, size); otherwise the loaded word at the data width |
| Memories.RomChanged | src/main/kotlin/com/ra4king/circuitsim/simulator/components/memory/ROM.kt:55-64 | one push on the data port of the data width; floating unless enabled with a valid address; the only failure is the null dereference |
| Memories.RomReads | src/main/kotlin/com/ra4king/circuitsim/simulator/components/memory/ROM.kt:55-64 | enabled with a valid address, the ROM fails exactly when the address is past the end, and otherwise drives the word at the effective address modulo 2^dataBits |
| Memories.RomStoreThenRead | src/main/kotlin/com/ra4king/circuitsim/simulator/components/memory/ROM.kt:44-64 | after a store at an address, an enabled ROM addressed there drives the stored value |
| Memories.RamWidths | src/main/kotlin/com/ra4king/circuitsim/simulator/components/memory/RAM.kt:142-144 | six ports, or eight with separate load and store |
| Memories.NewRam | src/main/kotlin/com/ra4king/circuitsim/simulator/components/memory/RAM.kt:29-33 | construction succeeds exactly for 1 to 20 address bits; the memory size is 2^netAddrBits |
| Memories.RamInit | src/main/kotlin/com/ra4king/circuitsim/simulator/components/memory/RAM.kt:66-71 | the previous memory cut or zero-padded to the size, else the file's words zero-padded, else no property |
| Memories.RamInitKeeps | src/main/kotlin/com/ra4king/circuitsim/simulator/components/memory/RAM.kt:64-71 | re-initialising from a memory of the right size gives it back; without memory or file the state reads as zeros |
| Memories.RamLoad | src/main/kotlin/com/ra4king/circuitsim/simulator/components/memory/RAM.kt:62 | a load succeeds exactly when the effective address is in range of this state's memory |
| Memories.RamStore | src/main/kotlin/com/ra4king/circuitsim/simulator/components/memory/RAM.kt:47-60 | succeeds exactly for an in-range effective address; keeps the size; one listener call with the word index; pushes the new word exactly when enabled, loading and the address port shows this address |
| Memories.RamStoreThenLoad | src/main/kotlin/com/ra4king/circuitsim/simulator/components/memory/RAM.kt:47-62 | after a store, addresses with the same word index load the data and all others load what they did before |
| Memories.ClearAsWritten | src/main/kotlin/com/ra4king/circuitsim/simulator/components/memory/RAM.kt:122-128 | the clear loop as written: one store of 0 per address below the size, each to the word index effective(i), with one listener call each |
| Memories.ClearAsWrittenCells | src/main/kotlin/com/ra4king/circuitsim/simulator/components/memory/RAM.kt:122-128 | after the loop as written, word j is 0 exactly when j is effective(i) for some i below n, and is otherwise unchanged |
| Memories.ClearMissesLastWord | src/main/kotlin/com/ra4king/circuitsim/simulator/components/memory/RAM.kt:122-128 | with byte or half-word addressing of a 16- or 32-bit RAM the last word survives the clear (the second finding, as written) |
| Memories.ClearAsWrittenExample | src/main/kotlin/com/ra4king/circuitsim/simulator/components/memory/RAM.kt:122-128 | a 32-bit byte-addressed RAM of four words holding 1, 2, 3, 4 holds 0, 2, 3, 4 after the clear |
| Memories.ClearEveryWord | src/main/kotlin/com/ra4king/circuitsim/simulator/components/memory/RAM.kt:122-128 | the corrected clear zeroes every word and tells the listeners every word index once |
| Memories.ClearsAgreeOnWords | src/main/kotlin/com/ra4king/circuitsim/simulator/components/memory/RAM.kt:122-128 | when the divisor is 1, the clear as written and the corrected clear leave the same memory |
| Memories.RamChanged | src/main/kotlin/com/ra4king/circuitsim/simulator/components/memory/RAM.kt:77-131 | only clock and clear events change the memory; the data ports and above do nothing; the only failure is an out-of-range word index |
| Memories.RamWriteThenRead | src/main/kotlin/com/ra4king/circuitsim/simulator/components/memory/RAM.kt:77-120 | a clocked store of a valid value followed by an enabled load from the same address drives the value that was written, for widths 1 to 32 |
| Splitters.DefaultIndices | src/main/kotlin/com/ra4king/circuitsim/simulator/components/wiring/Splitter.kt:53 | the default fan map has one entry per bit, and fails (division by zero) exactly for a positive width with no fans |
| Splitters.DefaultIndicesInRange | src/main/kotlin/com/ra4king/circuitsim/simulator/components/wiring/Splitter.kt:53 | with some fans every bit goes to an existing fan, and fan k receives the consecutive block of bits starting at k times the block size |
| Splitters.Max | src/main/kotlin/com/ra4king/circuitsim/simulator/components/wiring/Splitter.kt:56 | the largest entry is an entry and bounds all others |
| Splitters.PortBitsizes | src/main/kotlin/com/ra4king/circuitsim/simulator/components/wiring/Splitter.kt:55-63 | succeeds exactly for a non-empty map whose largest fan is at least -1; then one port per fan plus the joined port, fan k as wide as the bits it owns and the joined port as wide as the map |
| Splitters.Gather | src/main/kotlin/com/ra4king/circuitsim/simulator/components/wiring/Splitter.kt:24-31 | the bits a fan gets from the joined value number the bits it owns |
| Splitters.Scatter | src/main/kotlin/com/ra4king/circuitsim/simulator/components/wiring/Splitter.kt:35-41 | writing a fan into the joined value keeps its width |
| Splitters.GatherScatter | src/main/kotlin/com/ra4king/circuitsim/simulator/components/wiring/Splitter.kt:24-41 | gathering a fan that was just scattered gives the fan's value back |
| Splitters.ScatterGather | src/main/kotlin/com/ra4king/circuitsim/simulator/components/wiring/Splitter.kt:24-41 | scattering what was gathered from v copies v's bits of that fan and keeps every other bit |
| Splitters.SplitThenJoin | src/main/kotlin/com/ra4king/circuitsim/simulator/components/wiring/Splitter.kt:24-41 | splitting a joined value and writing a fan back leaves it unchanged |
| Splitters.ScatterKeeps | src/main/kotlin/com/ra4king/circuitsim/simulator/components/wiring/Splitter.kt:35-41 | writing one fan never touches a bit another fan owns |
| Splitters.ValueChanged | src/main/kotlin/com/ra4king/circuitsim/simulator/components/wiring/Splitter.kt:17-50 | a joined event of the wrong width is an IllegalState naming the component, the map's length and the value's width; otherwise it pushes each fan its gathered bits; a fan event succeeds exactly when its width is the fan's bit count (too few bits is an index error, too many an IllegalState naming the component, the bits used and the width) and pushes the last joined value with exactly that fan's bits replaced |
| Splitters.JoinAll | src/main/kotlin/com/ra4king/circuitsim/simulator/components/wiring/Splitter.kt:35-41 | writing back several fans keeps the width |
| Splitters.JoinAllBits | src/main/kotlin/com/ra4king/circuitsim/simulator/components/wiring/Splitter.kt:17-50 | writing back fans 0 to k-1 copies exactly the bits those fans own and keeps the rest |
| Splices.SpliceWire | src/main/kotlin/com/ra4king/circuitsim/gui/CircuitBoard.kt:621-672 | fails exactly when within is not inside toSplice; otherwise at most two pieces of the same orientation inside toSplice, which with within cover exactly its unit steps, none shared |
| Splices.Before | src/main/kotlin/com/ra4king/circuitsim/gui/CircuitBoard.kt:625-634 | at most one piece before within |
| Splices.After | src/main/kotlin/com/ra4king/circuitsim/gui/CircuitBoard.kt:636-646 | at most one piece after within |
| Splices.SpliceCovers | src/main/kotlin/com/ra4king/circuitsim/gui/CircuitBoard.kt:621-672 | the pieces and within partition the unit steps of toSplice |
| Splices.SpliceOverlappingWire | src/main/kotlin/com/ra4king/circuitsim/gui/CircuitBoard.kt:674-728 | fails when the wires do not overlap; otherwise three pieces of the same orientation |
| Splices.SpliceOverlappingPartition | src/main/kotlin/com/ra4king/circuitsim/gui/CircuitBoard.kt:674-728 | for overlapping wires neither containing the other, the three pieces are the steps only toSplice covers, the shared steps and the steps only overlap covers |
| Splices.HorizontalThree | src/main/kotlin/com/ra4king/circuitsim/gui/CircuitBoard.kt:677-701 | for horizontal wires the pieces are the left part, the shared part and the right part, in toSplice-first order either way round |
| Splices.VerticalThree | src/main/kotlin/com/ra4king/circuitsim/gui/CircuitBoard.kt:703-727 | the vertical counterpart: top part, shared part and bottom part |
| Splices.SplitWire | src/main/kotlin/com/ra4king/circuitsim/gui/CircuitBoard.kt:826-834 | cutting at a point on the wire succeeds exactly when the point is not an end (a zero length throws); the pieces start at the wire's start and at the point |
| Splices.SplitWirePartition | src/main/kotlin/com/ra4king/circuitsim/gui/CircuitBoard.kt:826-834 | the two pieces meet at the point, end where the wire ends and split its unit steps without sharing one |
| Splices.Fuse | src/main/kotlin/com/ra4king/circuitsim/gui/CircuitBoard.kt:876-910 | the fused wire has the summed length and the same orientation |
| Splices.FuseJoins | src/main/kotlin/com/ra4king/circuitsim/gui/CircuitBoard.kt:876-910 | fusing two collinear wires that meet end to end, in either order, covers exactly the steps and points of both |
| Subcircuits.DefaultPins | src/main/kotlin/com/ra4king/circuitsim/simulator/components/Subcircuit.kt:16 | the pins are exactly the embedded circuit's components that are pins |
| Subcircuits.IndexOf | src/main/kotlin/com/ra4king/circuitsim/simulator/components/Subcircuit.kt:81-82 | the first position of the pin, and none exactly when the pin is absent |
| Subcircuits.GetPortOfPin | src/main/kotlin/com/ra4king/circuitsim/simulator/components/Subcircuit.kt:80-84 | null exactly for a pin that is not one of this subcircuit's; otherwise this component's port at the pin's index |
| Subcircuits.ValueChanged | src/main/kotlin/com/ra4king/circuitsim/simulator/components/Subcircuit.kt:86-93 | without an inner state the cast fails; a port past the pins is an index error; otherwise the value goes to the inner state through the pin's port exactly when the pin is an input still in a circuit |
| Subcircuits.CheckLoop | src/main/kotlin/com/ra4king/circuitsim/simulator/components/Subcircuit.kt:18-25 | the check fails with "Subcircuit loop detected." when it reaches the owning circuit; its only other failure is a stack overflow |
| Subcircuits.CheckEach | src/main/kotlin/com/ra4king/circuitsim/simulator/components/Subcircuit.kt:22-24 | the component loop fails only with the loop error or a stack overflow |
| Subcircuits.PassedMeansNoLoop | src/main/kotlin/com/ra4king/circuitsim/simulator/components/Subcircuit.kt:18-25 | whenever a chain of embeddings leads from the checked circuit to the owner, the check fails |
| Subcircuits.EachFailsOn | src/main/kotlin/com/ra4king/circuitsim/simulator/components/Subcircuit.kt:22-24 | the component loop fails when the check of one of its subcircuits fails |
| Subcircuits.LoopWitness | src/main/kotlin/com/ra4king/circuitsim/simulator/components/Subcircuit.kt:18-25 | a loop error names a chain of embeddings from the checked circuit to the owner |
| Subcircuits.EachWitness | src/main/kotlin/com/ra4king/circuitsim/simulator/components/Subcircuit.kt:22-24 | a loop error of the component loop names the subcircuit it came through and the chain behind it |
| Subcircuits.SetCircuit | src/main/kotlin/com/ra4king/circuitsim/simulator/components/Subcircuit.kt:27-31 | the field always takes the new value; the setter throws exactly when the loop check fails, and always when the subcircuit is placed inside the circuit it embeds |
| Subcircuits.ClearingFindsNoLoop | src/main/kotlin/com/ra4king/circuitsim/simulator/components/Subcircuit.kt:27-31 | setting the circuit to null never reports a loop |
| Subcircuits.EachNoLoop | src/main/kotlin/com/ra4king/circuitsim/simulator/components/Subcircuit.kt:22-24 | with no owner the component loop never reports a loop |
| Subcircuits.UninitUndoesInit | src/main/kotlin/com/ra4king/circuitsim/simulator/components/Subcircuit.kt:33-70 | uninit after init restores the properties and returns the inner state init created |
| Netlist.AddPort | src/main/kotlin/com/ra4king/circuitsim/simulator/Port.kt:6-13 | a new port sits alone in a fresh link of its width; every other port keeps its link and that link's contents |
| Netlist.AddPorts | src/main/kotlin/com/ra4king/circuitsim/simulator/Component.kt:8 | ports 0 to count-1 of the component each sit alone in a link of their width, and the rest of the net is unchanged |
| Netlist.NewComponent | src/main/kotlin/com/ra4king/circuitsim/simulator/Component.kt:6-8 | a new component contributes exactly one port per width, each alone in its own link, belongs to no circuit yet, and leaves the other ports untouched |
| Netlist.GetPortOfNew | src/main/kotlin/com/ra4king/circuitsim/simulator/Component.kt:6-10 | the ports getPort hands out for a new component are exactly its own new ports, each alone in a link as wide as the port array says; an index that throws names no port of the component |
| Netlist.FirstCircuit | src/main/kotlin/com/ra4king/circuitsim/simulator/Port.kt:26-29 | no circuit exactly when no participant's component is in one; otherwise the circuit of some participant, before which none had one |
| Netlist.LinkCircuitUnique | src/main/kotlin/com/ra4king/circuitsim/simulator/Port.kt:26-29 | when every participant in a circuit is in the same circuit c, the link's circuit is c |
| Netlist.LinkPort | src/main/kotlin/com/ra4king/circuitsim/simulator/Port.kt:31-49 | linking a port already in the link changes nothing; otherwise it fails exactly when either link has no circuit, the circuits differ or the widths differ, with the source's exception and message for the first of these that holds |
| Netlist.Join | src/main/kotlin/com/ra4king/circuitsim/simulator/Port.kt:41-46 | the link gains the other link's participants, after its own; every port that moved names the link; the other link is gone; no port is lost |
| Netlist.Remove | src/main/kotlin/com/ra4king/circuitsim/simulator/Port.kt:56 | exactly the given element is removed; the order and distinctness of the others are kept |
| Netlist.Detach | src/main/kotlin/com/ra4king/circuitsim/simulator/Port.kt:56-59 | the port leaves the link for a fresh link of the same width, where it is alone; every other port keeps its link |
| Netlist.UnlinkPort | src/main/kotlin/com/ra4king/circuitsim/simulator/Port.kt:51-64 | a port that is not in the link, or is its only participant, changes nothing; otherwise it is alone in a fresh link of the same width, the others stay; a link outside any circuit is detached and then throws a null dereference |
| Netlist.LinkThenUnlink | src/main/kotlin/com/ra4king/circuitsim/simulator/Port.kt:31-64 | linking a lone port and then unlinking it restores both nets |
| Netlist.LinkPortKeepsPorts | src/main/kotlin/com/ra4king/circuitsim/simulator/Port.kt:31-49 | linking keeps every port in exactly one link, puts the port and the link's old participants in the link, and keeps the link's circuit |
| CircuitStates.MergeAllSpec | src/main/kotlin/com/ra4king/circuitsim/simulator/CircuitState.kt:188-200 | merging a net's values succeeds exactly when no two values drive one bit to different levels, fails only with a short circuit, and on success gives each bit the level some value drives, or Z when none does |
| CircuitStates.SubsetNoClash | src/main/kotlin/com/ra4king/circuitsim/simulator/CircuitState.kt:180-186 | dropping values from a net that merges cannot make it clash, so the merge without one port succeeds whenever the full merge does |
| CircuitStates.NewLinkState | src/main/kotlin/com/ra4king/circuitsim/simulator/CircuitState.kt:162-166 | a new link state has one all-Z record per participant, at the link's width |
| CircuitStates.Find | src/main/kotlin/com/ra4king/circuitsim/simulator/CircuitState.kt:144 | a port's record is found exactly when the port participates, and the one found is that port's |
| CircuitStates.LastPushed | src/main/kotlin/com/ra4king/circuitsim/simulator/CircuitState.kt:176 | the port's last pushed value, as wide as the net; all-Z for a port that does not participate |
| CircuitStates.LastReceived | src/main/kotlin/com/ra4king/circuitsim/simulator/CircuitState.kt:178 | the port's last received value, as wide as the net; all-Z for a port that does not participate |
| CircuitStates.Propagated | src/main/kotlin/com/ra4king/circuitsim/simulator/CircuitState.kt:180-186 | exactly the propagated values of the participants other than the excluded port |
| CircuitStates.IsShortCircuit | src/main/kotlin/com/ra4king/circuitsim/simulator/CircuitState.kt:202-213 | a net is short-circuited exactly when its participants' propagated values clash |
| CircuitStates.IncomingOfSound | src/main/kotlin/com/ra4king/circuitsim/simulator/CircuitState.kt:180-200 | when the whole net merges, the merge without any one port does too |
| CircuitStates.Deliveries | src/main/kotlin/com/ra4king/circuitsim/simulator/CircuitState.kt:220-234 | a port is notified exactly when its incoming value merges and differs from what it last received; a settled net notifies no one |
| CircuitStates.FirstException | src/main/kotlin/com/ra4king/circuitsim/simulator/CircuitState.kt:238-248 | the kept exception is the first ordinary one a component threw, and there is none exactly when every component threw nothing or a short circuit |
| CircuitStates.ReceiveAll | src/main/kotlin/com/ra4king/circuitsim/simulator/CircuitState.kt:220-234 | every port's last received value becomes its incoming value when that merges; the ports and widths are unchanged |
| CircuitStates.PropagateFault | src/main/kotlin/com/ra4king/circuitsim/simulator/CircuitState.kt:236-255 | a component's ordinary exception wins; otherwise a short circuit is thrown exactly when the net clashes or a component reported one |
| CircuitStates.Propagate | src/main/kotlin/com/ra4king/circuitsim/simulator/CircuitState.kt:215-256 | every participant ends up holding the merge of the others' values, only changed ports are notified, pushed and propagated values stay, and the exception follows the ranking above |
| CircuitStates.PropagateSettles | src/main/kotlin/com/ra4king/circuitsim/simulator/CircuitState.kt:215-256 | a second propagation right after the first notifies no one |
| CircuitStates.Put | src/main/kotlin/com/ra4king/circuitsim/simulator/CircuitState.kt:261 | putting a record replaces that port's record or adds it, keeping every other record and one record per port |
| CircuitStates.PutAll | src/main/kotlin/com/ra4king/circuitsim/simulator/CircuitState.kt:261 | after putAll the ports are those of both sides, the other side's records win, and no port has two records |
| CircuitStates.ClearPropagated | src/main/kotlin/com/ra4king/circuitsim/simulator/CircuitState.kt:265 | every propagated value is all-Z and the ports are unchanged |
| CircuitStates.JoinStates | src/main/kotlin/com/ra4king/circuitsim/simulator/CircuitState.kt:258-266 | the joined state holds every port of both nets, and the joined net merges to all-Z until the next propagation |
| CircuitStates.AllFloatingMerge | src/main/kotlin/com/ra4king/circuitsim/simulator/CircuitState.kt:188-200 | a net whose propagated values all float merges to all-Z |
| CircuitStates.RemoveSlot | src/main/kotlin/com/ra4king/circuitsim/simulator/CircuitState.kt:273 | exactly the port's record is removed, the others kept in order |
| CircuitStates.InfoOf | src/main/kotlin/com/ra4king/circuitsim/simulator/CircuitState.kt:144 | a port's record is found exactly when the port participates, and it is one of the state's records |
| CircuitStates.InfoOfSlot | src/main/kotlin/com/ra4king/circuitsim/simulator/CircuitState.kt:144 | with one record per port, the record present is the one found |
| CircuitStates.ReadOnlyCloneRefusesPush | src/main/kotlin/com/ra4king/circuitsim/simulator/CircuitState.kt:26-32 | the clone reads every value the original holds, for every port of every net, yet refuses every push with "This CircuitState is read-only" and stays as it was |
| CircuitStates.Get | src/main/kotlin/com/ra4king/circuitsim/simulator/CircuitState.kt:82-85 | an existing link state is returned as is; otherwise a link with no circuit or from another circuit is refused with the source's message, and a link of this circuit gets a fresh all-Z state; nothing else changes |
| CircuitStates.PushValue | src/main/kotlin/com/ra4king/circuitsim/simulator/CircuitState.kt:114-125 | a read-only state refuses; pushing the value already pushed changes nothing; a value of another width throws an IllegalArgument naming the pushed record's width and the value's; otherwise the record is overwritten and exactly that net is queued |
| CircuitStates.Publish | src/main/kotlin/com/ra4king/circuitsim/simulator/CircuitState.kt:94-102 | every participant's propagated value becomes its pushed value, with nothing else changed |
| CircuitStates.PropagateSignal | src/main/kotlin/com/ra4king/circuitsim/simulator/CircuitState.kt:91-105 | the net's state is fetched, every pushed value is published, and the net is propagated; afterwards each propagated value equals the pushed one |
| CircuitStates.Joined | src/main/kotlin/com/ra4king/circuitsim/simulator/CircuitState.kt:258-270 | the second net's records join the first's, the second's state is dropped and leaves the queue, the first is queued, and no other state changes |
| CircuitStates.LinkNets | src/main/kotlin/com/ra4king/circuitsim/simulator/CircuitState.kt:87 | both link states are fetched in order, a failure of either is thrown, linking a net with itself changes nothing more; otherwise the joined net holds both nets' ports and floats |
| CircuitStates.PutInfo | src/main/kotlin/com/ra4king/circuitsim/simulator/CircuitState.kt:279-286 | the record lands in the state of the port's new link, which is fetched first; that fetch's failure is the only failure |
| CircuitStates.Removed | src/main/kotlin/com/ra4king/circuitsim/simulator/CircuitState.kt:273 | exactly the port's record leaves the net's state; other link states are untouched |
| CircuitStates.GetAlike | src/main/kotlin/com/ra4king/circuitsim/simulator/CircuitState.kt:82-85 | whether fetching a link state fails depends only on which links already have states |
| CircuitStates.Settle | src/main/kotlin/com/ra4king/circuitsim/simulator/CircuitState.kt:300-305 | an emptied net's state is dropped and leaves the queue; otherwise the net is queued |
| CircuitStates.Detached | src/main/kotlin/com/ra4king/circuitsim/simulator/CircuitState.kt:272-308 | the port's record moves to its new net; its component is told the net now floats exactly when it had received something else, and that call's exception is rethrown at the end; the net it left is dropped when empty and queued otherwise |
| CircuitStates.Rejoin | src/main/kotlin/com/ra4king/circuitsim/simulator/CircuitState.kt:279-307 | the moved record is placed in the new net's state, then the old net is settled; other link states are untouched |
| CircuitStates.DetachedKeepsOthers | src/main/kotlin/com/ra4king/circuitsim/simulator/CircuitState.kt:272-308 | unlinking a port touches only the state it leaves and the state it joins |
| CircuitStates.UnlinkNet | src/main/kotlin/com/ra4king/circuitsim/simulator/CircuitState.kt:89 | a state that never held the port's record only gets fetched; otherwise the record is detached as above |
| CircuitStates.EnsureUnlinked | src/main/kotlin/com/ra4king/circuitsim/simulator/CircuitState.kt:127-139 | the walk throws "Must unlink port before removing it." exactly when one of the component's nets still has another participant; otherwise, when asked, every link state of the component is dropped and leaves the queue; without removeLinks nothing changes |
| CircuitStates.Reset | src/main/kotlin/com/ra4king/circuitsim/simulator/CircuitState.kt:72-73 | every existing link state starts over all-Z and merges to all-Z |
| Circuits.Create | src/main/kotlin/com/ra4king/circuitsim/simulator/Circuit.kt:9-23 | a new circuit is empty, has only its top-level state, and is registered with the simulator |
| Circuits.AddState | src/main/kotlin/com/ra4king/circuitsim/simulator/Circuit.kt:118-120 | the states afterwards are the old ones plus the new one, with nothing else changed |
| Circuits.RemoveState | src/main/kotlin/com/ra4king/circuitsim/simulator/Circuit.kt:124-126 | the states afterwards are the old ones without the removed one, with nothing else changed |
| Circuits.FirstFault | src/main/kotlin/com/ra4king/circuitsim/simulator/Circuit.kt:31-32 | no exception is kept exactly when no call threw; otherwise the kept one is that of the earliest throwing call |
| Circuits.InitAll | src/main/kotlin/com/ra4king/circuitsim/simulator/Circuit.kt:28-34 | init runs once per state, in order; an exception does not stop the walk, and the first one is kept unless one was already pending |
| Circuits.UninitAll | src/main/kotlin/com/ra4king/circuitsim/simulator/Circuit.kt:41-48 | uninit runs once per state, in order; an exception does not stop the walk, and the first one is kept |
| Circuits.UnlinkAll | src/main/kotlin/com/ra4king/circuitsim/simulator/Circuit.kt:38-39 | each state's ensureUnlinked starts from the world the previous call left; the walk succeeds exactly when every call succeeds in turn, and otherwise ends at the first failing call with that call's partial world and exception |
| Circuits.AddOne | src/main/kotlin/com/ra4king/circuitsim/simulator/Circuit.kt:25-36 | the component's circuit field is set first; when the setter's check throws, that exception escapes with nothing else changed; otherwise the component joins, init is recorded for each state, then one "added" notice; a pending exception stays the one thrown; the circuit stays consistent |
| Circuits.RemoveOne | src/main/kotlin/com/ra4king/circuitsim/simulator/Circuit.kt:38-51 | an unlinking exception escapes with the circuit's components, owners and notices unchanged but the earlier states already unlinked; otherwise the component leaves, loses its owner, is uninitialised in each state, and one "removed" notice follows |
| Circuits.AddComponent | src/main/kotlin/com/ra4king/circuitsim/simulator/Circuit.kt:60-72 | a component already here is left alone; one in another circuit is refused with the source's message and no change; otherwise its field names this circuit, and it joins unless the setter's check throws, in which case the components and notices are unchanged and that exception is thrown |
| Circuits.RemoveComponent | src/main/kotlin/com/ra4king/circuitsim/simulator/Circuit.kt:101-109 | a component not here is left alone; otherwise, if unlinking succeeds, it is gone from the components and the owners, and if unlinking fails it stays and the exception is thrown |
| Circuits.UpdateComponent | src/main/kotlin/com/ra4king/circuitsim/simulator/Circuit.kt:85-93 | the old component leaves (links kept); an unlinking exception stops everything; then the new one's field is set and, unless its setter throws (then the old one is gone and the new one not added), it joins, initialised from the old one's property; the notices come in that order; the removal's exception wins over the addition's |
| Circuits.ClearComponents | src/main/kotlin/com/ra4king/circuitsim/simulator/Circuit.kt:114-116 | when nothing throws, every component of the snapshot is gone and the others stay; the circuit stays consistent |
| Circuits.ClearEmpties | src/main/kotlin/com/ra4king/circuitsim/simulator/Circuit.kt:114-116 | clearing with a snapshot of all components empties the circuit when nothing throws |
| Circuits.AddLoopRefused | src/main/kotlin/com/ra4king/circuitsim/simulator/components/Subcircuit.kt:18-31 | a subcircuit added to a circuit its embedded circuit reaches through a chain of embeddings is refused with the loop exception (or a stack overflow for a chain deeper than the stack); the components and notices are unchanged and only its circuit field is set |
| Circuits.AddSelfRefused | src/main/kotlin/com/ra4king/circuitsim/simulator/components/Subcircuit.kt:18-31 | a subcircuit added to the very circuit it embeds is refused with "Subcircuit loop detected.", its field already set |
| Circuits.AddThenRemove | src/main/kotlin/com/ra4king/circuitsim/simulator/Circuit.kt:60-109 | for a plain component with the default hooks, adding it and then removing it restores the members and owners, after exactly one "added" and one "removed" notice |
| Circuits.QuietPasses | src/main/kotlin/com/ra4king/circuitsim/simulator/Circuit.kt:28-48 | the default init and uninit throw nothing and change nothing |
| Circuits.QuietUnlinks | src/main/kotlin/com/ra4king/circuitsim/simulator/Circuit.kt:39 | an ensureUnlinked that finds no links never stops the walk |
| Simulator.Initial | src/main/kotlin/com/ra4king/circuitsim/simulator/Simulator.kt:11-16 | a new simulator has no circuits, nothing pending and is not stepping |
| Simulator.AddThenRemoveCircuit | src/main/kotlin/com/ra4king/circuitsim/simulator/Simulator.kt:72-83 | removing a circuit just added gives back the simulator as it was |
| Simulator.RemoveThenAddCircuit | src/main/kotlin/com/ra4king/circuitsim/simulator/Simulator.kt:72-83 | adding back a circuit just removed restores the simulator, and adding a registered circuit again changes nothing |
| Simulator.Clear | src/main/kotlin/com/ra4king/circuitsim/simulator/Simulator.kt:47-55 | no circuits, nothing pending, no deferred short circuits and no history remain |
| Simulator.Add | src/main/kotlin/com/ra4king/circuitsim/simulator/Simulator.kt:102 | the pending set gains the pair and nothing else; pairs already pending keep their order and no pair appears twice |
| Simulator.Without | src/main/kotlin/com/ra4king/circuitsim/simulator/Simulator.kt:110-112 | exactly the pending pairs of other links remain, in order, without duplicates |
| Simulator.ValueChanged | src/main/kotlin/com/ra4king/circuitsim/simulator/Simulator.kt:101-103 | the pair is pending afterwards, everything pending before still is, in its old order, and nothing else changes |
| Simulator.LinkRemoved | src/main/kotlin/com/ra4king/circuitsim/simulator/Simulator.kt:108-114 | a pair is pending afterwards exactly when it was before and is on another link |
| Simulator.ValueChangedIdempotent | src/main/kotlin/com/ra4king/circuitsim/simulator/Simulator.kt:101-103 | reporting the same pair twice is the same as reporting it once |
| Simulator.RemovedCancelsQueued | src/main/kotlin/com/ra4king/circuitsim/simulator/Simulator.kt:101-114 | removing a link cancels a pair of that link that was queued just before |
| Simulator.LinkRemovedAfterValueChanged | src/main/kotlin/com/ra4king/circuitsim/simulator/Simulator.kt:101-114 | linkRemoved after valueChanged of a fresh pair of that link gives the same simulator as linkRemoved alone |
| Simulator.Apply | src/main/kotlin/com/ra4king/circuitsim/simulator/Simulator.kt:136-151 | the queue requests of a propagation keep the pending set free of duplicates and add only the pairs they enqueue |
| Simulator.RunRound | src/main/kotlin/com/ra4king/circuitsim/simulator/Simulator.kt:136-151 | only pairs of the snapshot are recorded as short-circuited and none is forgotten; a caught exception stays caught; a short circuit is never recorded as the ordinary exception |
| Simulator.Step | src/main/kotlin/com/ra4king/circuitsim/simulator/Simulator.kt:121-174 | a step while stepping does nothing; otherwise the snapshot is propagated into a fresh pending set; an ordinary exception is thrown first; deferred short circuits are thrown only when nothing is pending and one is still shorted, and are forgotten when none is |
| Simulator.StepIdle | src/main/kotlin/com/ra4king/circuitsim/simulator/Simulator.kt:121-174 | a step with nothing pending and nothing deferred changes nothing |
| Simulator.StepShortFromKnownPairs | src/main/kotlin/com/ra4king/circuitsim/simulator/Simulator.kt:136-169 | every pair deferred as short-circuited after a step was deferred before or was pending |
| Simulator.StepLoop | src/main/kotlin/com/ra4king/circuitsim/simulator/Simulator.kt:191-211 | when the loop ends without an oscillation nothing is pending; it ends quietly only if no step threw; an ordinary exception is thrown in preference to a short circuit |
| Simulator.StepAll | src/main/kotlin/com/ra4king/circuitsim/simulator/Simulator.kt:179-213 | a no-op while stepping; otherwise, unless it reports an oscillation, it leaves nothing pending |
| Simulator.SelfRequeueOscillates | src/main/kotlin/com/ra4king/circuitsim/simulator/Simulator.kt:191-195 | a pair whose propagation queues itself again is reported as an oscillation |
| Simulator.LoopOscillates | src/main/kotlin/com/ra4king/circuitsim/simulator/Simulator.kt:191-195 | the same for the loop itself, counting the recurrences already seen |
| Wires.NewWire | src/main/kotlin/com/ra4king/circuitsim/gui/LinkWires.kt:178-213 | a zero length throws "Length cannot be 0"; otherwise the wire has the length's magnitude and runs between the given origin and the point the signed length reaches |
| Wires.BoundsHoldWire | src/main/kotlin/com/ra4king/circuitsim/gui/LinkWires.kt:178-183 | the bounding box contains exactly the grid points on the wire: it is as long as the wire along its axis and flat across it |
| Wires.PointsOnWire | src/main/kotlin/com/ra4king/circuitsim/gui/LinkWires.kt:215-248 | the connections are exactly the grid points on the wire, the first is its start and the last its end |
| Wires.IsWithinPoints | src/main/kotlin/com/ra4king/circuitsim/gui/LinkWires.kt:234-237 | a wire lies within another exactly when they share an orientation and every grid point of the one lies on the other |
| Wires.OverlapsSharedStep | src/main/kotlin/com/ra4king/circuitsim/gui/LinkWires.kt:239-242 | two wires overlap exactly when they share a unit step, so overlapping is symmetric and a wire within another overlaps it |
| Wires.NewWireReversed | src/main/kotlin/com/ra4king/circuitsim/gui/LinkWires.kt:204-213 | a wire written from either end is the same wire |
| Links.LinkValidIffOneWidth | src/main/kotlin/com/ra4king/circuitsim/gui/LinkWires.kt:23-24 | a net is valid exactly when all its ports have one width |
| Links.TwoPortsNotEmpty | src/main/kotlin/com/ra4king/circuitsim/gui/LinkWires.kt:26-27 | a net with two different ports is not empty |
| Links.AddWire | src/main/kotlin/com/ra4king/circuitsim/gui/LinkWires.kt:33-36 | the wires afterwards are the old ones plus the new one; the ports are untouched |
| Links.RemoveWire | src/main/kotlin/com/ra4king/circuitsim/gui/LinkWires.kt:39-43 | the wires afterwards are the old ones minus the removed one; the ports are untouched |
| Links.AddPort | src/main/kotlin/com/ra4king/circuitsim/gui/LinkWires.kt:128-143 | the port joins the net; it is valid exactly when the net had no valid port or the widths match; otherwise it is recorded as invalid with the bit-size failure |
| Links.AddPortPresent | src/main/kotlin/com/ra4king/circuitsim/gui/LinkWires.kt:128-143 | adding a port already in the net changes nothing |
| Links.AddPorts | src/main/kotlin/com/ra4king/circuitsim/gui/LinkWires.kt:128-143 | adding several ports adds exactly those ports and keeps the net coherent |
| Links.AddWires | src/main/kotlin/com/ra4king/circuitsim/gui/LinkWires.kt:33-36 | adding several wires adds exactly those wires |
| Links.RemovePort | src/main/kotlin/com/ra4king/circuitsim/gui/LinkWires.kt:145-162 | exactly that port leaves the net; when the last valid port leaves, the invalid ports are added again and the first of them sets the width |
| Links.AddPortsFirst | src/main/kotlin/com/ra4king/circuitsim/gui/LinkWires.kt:128-143 | the first port added to a net without valid ports becomes its first valid port |
| Links.AddPortsKeepsFirst | src/main/kotlin/com/ra4king/circuitsim/gui/LinkWires.kt:128-143 | adding ports never changes a net's first valid port |
| Links.RemovePorts | src/main/kotlin/com/ra4king/circuitsim/gui/LinkWires.kt:145-162 | removing several ports removes exactly those ports |
| Links.RemoveWires | src/main/kotlin/com/ra4king/circuitsim/gui/LinkWires.kt:39-43 | removing several wires removes exactly those wires |
| Links.Clear | src/main/kotlin/com/ra4king/circuitsim/gui/LinkWires.kt:165-168 | a cleared net has no ports, invalid ports or wires |
| Links.Merge | src/main/kotlin/com/ra4king/circuitsim/gui/LinkWires.kt:170-176 | the merged net has the ports and wires of both and stays coherent |
| Links.Absorb | src/main/kotlin/com/ra4king/circuitsim/gui/LinkWires.kt:172-174 | adding the other net's valid ports, invalid ports and wires gives a net with the ports and wires of both |
| Links.AbsorbSelf | src/main/kotlin/com/ra4king/circuitsim/gui/LinkWires.kt:170-176 | absorbing a net into itself changes nothing, so the identity check in merge is only a shortcut |
| Links.AddPortsPresent | src/main/kotlin/com/ra4king/circuitsim/gui/LinkWires.kt:128-143 | adding ports already in a net changes nothing |
| Links.AddWiresPresent | src/main/kotlin/com/ra4king/circuitsim/gui/LinkWires.kt:33-36 | adding wires already in a net changes nothing |
| Links.Find | src/main/kotlin/com/ra4king/circuitsim/gui/LinkWires.kt:91-126 | the collected net holds exactly the wires taken from the pool and the ports taken from the port pool; nothing left in either pool touches the net's wires or lies on them; every port taken lies on the wire or one of the net's wires |
| Links.FindAll | src/main/kotlin/com/ra4king/circuitsim/gui/LinkWires.kt:109-110 | the collected net grows only by wires and ports from the pools, and nothing left touches it |
| Links.Groups | src/main/kotlin/com/ra4king/circuitsim/gui/LinkWires.kt:56-62 | each wire ends up in exactly one net; the nets share no wire or port and no wire of one touches a wire of another; every port taken lies on its net's wires and no port left lies on any |
| Links.ByPosition | src/main/kotlin/com/ra4king/circuitsim/gui/LinkWires.kt:64-86 | ports left over are grouped by grid point; every port that shares its point with another is in a net, a port alone at its point is in none, and the nets are apart |
| Links.SplitWires | src/main/kotlin/com/ra4king/circuitsim/gui/LinkWires.kt:45-89 | the removed wires leave; each remaining wire is in exactly one of the new nets; the nets are coherent, not empty and apart; every port of a net lies on its wires or shares the net's grid point; a port in no net lies on no remaining wire and is alone at its point |
| Links.SplitWiresSeats | src/main/kotlin/com/ra4king/circuitsim/gui/LinkWires.kt:91-123 | a port on a remaining wire ends up in a net that has a wire it lies on: the first net whose wire reaches it takes it |
| GuiElements.ContainsIsWithin | src/main/kotlin/com/ra4king/circuitsim/gui/GuiElement.kt:28-42 | a box contains another exactly when the other lies within it; containment is reflexive and lying within is transitive |
| GuiElements.WithinPoints | src/main/kotlin/com/ra4king/circuitsim/gui/GuiElement.kt:26-42 | a box inside another contains only points the other contains |
| GuiElements.IntersectsSymmetric | src/main/kotlin/com/ra4king/circuitsim/gui/GuiElement.kt:44-48 | intersection is symmetric |
| GuiElements.IntersectsSharedCell | src/main/kotlin/com/ra4king/circuitsim/gui/GuiElement.kt:48 | two boxes with area intersect exactly when they share a unit grid cell |
| GuiElements.ScreenAgrees | src/main/kotlin/com/ra4king/circuitsim/gui/GuiElement.kt:24-48 | the screen-coordinate tests give the same answers as the grid tests on the scaled boxes |
| Connections.WireConnections | src/main/kotlin/com/ra4king/circuitsim/gui/LinkWires.kt:215-219 | a wire makes one connection per grid point on it, in order from its start |
| Connections.MovedShifts | src/main/kotlin/com/ra4king/circuitsim/gui/Connection.kt:14-32 | moving a connection's parent moves the connection by the same amount, keeping its kind, its offset and whether it ends a wire |
| Connections.WireConnectionsEnds | src/main/kotlin/com/ra4king/circuitsim/gui/LinkWires.kt:244-248 | a wire's first and last connections are its ends, at its start and end points, and no other connection of it is an end |
| Connections.GetConnections | src/main/kotlin/com/ra4king/circuitsim/gui/CircuitBoard.kt:944 | a point without a bucket has no connections; every connection found is at the point |
| Connections.FindConnection | src/main/kotlin/com/ra4king/circuitsim/gui/CircuitBoard.kt:942 | nothing is found exactly when the point has no connections; otherwise one of them |
| Connections.AddConnection | src/main/kotlin/com/ra4king/circuitsim/gui/CircuitBoard.kt:1028-1033 | the connection joins the bucket of its position; every other point's bucket is unchanged |
| Connections.RemoveConnection | src/main/kotlin/com/ra4king/circuitsim/gui/CircuitBoard.kt:1036-1043 | the connection leaves the bucket of its position, an emptied bucket is dropped, and every other bucket is unchanged |
| Connections.RemoveAfterAdd | src/main/kotlin/com/ra4king/circuitsim/gui/CircuitBoard.kt:1028-1043 | removing a connection just added gives back the index as it was |
| Boards.PortConns | src/main/kotlin/com/ra4king/circuitsim/gui/Connection.kt:44-52 | one port connection per port of the component, at the component's origin plus the port's offset |
| Boards.Peers | src/main/kotlin/com/ra4king/circuitsim/gui/CircuitBoard.kt:88-89 | exactly the components among the elements |
| Boards.MovingPeers | src/main/kotlin/com/ra4king/circuitsim/gui/CircuitBoard.kt:88-89 | exactly the components being dragged, none when nothing is |
| Boards.Free | src/main/kotlin/com/ra4king/circuitsim/gui/CircuitBoard.kt:90 | no other listed component has this component's origin |
| Boards.IsValidLocation | src/main/kotlin/com/ra4king/circuitsim/gui/CircuitBoard.kt:87-90 | a location is valid exactly when it is non-negative and no other placed or dragged component has that origin |
| Boards.DropPeer | src/main/kotlin/com/ra4king/circuitsim/gui/CircuitBoard.kt:929 | every listed component except the removed one stays, and the removed one is gone |
| Boards.Owner | src/main/kotlin/com/ra4king/circuitsim/gui/CircuitBoard.kt:34 | the first listed net holding the connection, and none exactly when no listed net holds it |
| Boards.LoneNet | src/main/kotlin/com/ra4king/circuitsim/gui/Connection.kt:47-61 | an unlisted connection is alone in a new coherent net: its port, or its wire |
| Boards.NetOf | src/main/kotlin/com/ra4king/circuitsim/gui/Connection.kt:12 | a connection's net holds it: the first listed net that does, or its own lone net |
| Boards.Enlist | src/main/kotlin/com/ra4king/circuitsim/gui/CircuitBoard.kt:112-114 | the connection's net ends up listed, the listed owner when there is one, else its lone net appended |
| Boards.RemoveAt | src/main/kotlin/com/ra4king/circuitsim/gui/CircuitBoard.kt:926 | the list without exactly one net, the others in order |
| Boards.FileAll | src/main/kotlin/com/ra4king/circuitsim/gui/CircuitBoard.kt:1028-1033 | every connection is filed under its own position, and every filing already there stays |
| Boards.UnfileAll | src/main/kotlin/com/ra4king/circuitsim/gui/CircuitBoard.kt:1036-1043 | exactly the given connections leave the index |
| Boards.PutWire | src/main/kotlin/com/ra4king/circuitsim/gui/CircuitBoard.kt:836-841 | the wire joins the listed net and its connections are filed; every other net is untouched |
| Boards.TakeWire | src/main/kotlin/com/ra4king/circuitsim/gui/CircuitBoard.kt:843-847 | the wire's connections leave the index and the wire leaves its net; every other net is untouched |
| Boards.SplitWireAt | src/main/kotlin/com/ra4king/circuitsim/gui/CircuitBoard.kt:826-834 | splitting a wire at a point on it succeeds exactly when the point is strictly inside the wire |
| Wiring.RemoveAtPools | src/main/kotlin/com/ra4king/circuitsim/gui/CircuitBoard.kt:936 | taking a net off the list loses exactly the ports and wires only that net held |
| Wiring.HandleConnection | src/main/kotlin/com/ra4king/circuitsim/gui/CircuitBoard.kt:933-940 | the connection's net is merged into the net being built and taken off the list; the list and the built net together hold what they held before plus the connection's own port or wire |
| Wiring.Gather | src/main/kotlin/com/ra4king/circuitsim/gui/CircuitBoard.kt:744-753 | after handling several connections the built net holds every one of them and nothing is lost |
| Wiring.WireAlreadyExists | src/main/kotlin/com/ra4king/circuitsim/gui/CircuitBoard.kt:816-824 | a wire is reported exactly when some wire connected at the new wire's origin contains the new wire, and the one reported does |
| Wiring.Stops | src/main/kotlin/com/ra4king/circuitsim/gui/CircuitBoard.kt:758-803 | the loop closes a piece exactly at the points where the first connection is a port or a wire end, and at the far end, in increasing order |
| Wiring.Cuts | src/main/kotlin/com/ra4king/circuitsim/gui/CircuitBoard.kt:755-803 | the piece boundaries are the origin, every such point strictly inside, and the far end |
| Wiring.Pieces | src/main/kotlin/com/ra4king/circuitsim/gui/CircuitBoard.kt:769-800 | one piece between each pair of consecutive boundaries |
| Wiring.PiecesCover | src/main/kotlin/com/ra4king/circuitsim/gui/CircuitBoard.kt:758-803 | the pieces cover exactly the unit steps of the wire asked for, and no two pieces share a step |
| Wiring.PiecesCoverAsked | src/main/kotlin/com/ra4king/circuitsim/gui/CircuitBoard.kt:758-803 | the same for the boundaries the board gives |
| Wiring.Handled | src/main/kotlin/com/ra4king/circuitsim/gui/CircuitBoard.kt:744-787 | every connection handed to handleConnection is one the index holds |
| Wiring.Splits | src/main/kotlin/com/ra4king/circuitsim/gui/CircuitBoard.kt:741-784 | every wire met away from its ends gets one cut entry, at most one per wire, and nothing else is entered |
| Wiring.Fresh | src/main/kotlin/com/ra4king/circuitsim/gui/CircuitBoard.kt:771-797 | exactly the pieces no existing wire contains are added |
| Wiring.Install | src/main/kotlin/com/ra4king/circuitsim/gui/CircuitBoard.kt:805 | the new net, listed last, holds every handled connection and every added piece, whose connections are filed; nothing listed or seated is lost |
| Wiring.ApplySplits | src/main/kotlin/com/ra4king/circuitsim/gui/CircuitBoard.kt:807 | applying cuts that each fall strictly inside their wire succeeds |
| Wiring.AddWire | src/main/kotlin/com/ra4king/circuitsim/gui/CircuitBoard.kt:731-815 | a negative end throws "Wire cannot go into negative space.", then a zero length throws "Length cannot be 0"; otherwise the pieces are added, the wires met are split, and the wires rejoined |
| Wiring.Settle | src/main/kotlin/com/ra4king/circuitsim/gui/CircuitBoard.kt:807-808 | the cuts are applied to the joined board, then the wires are rejoined |
| Wiring.SplitsAreGood | src/main/kotlin/com/ra4king/circuitsim/gui/CircuitBoard.kt:749-784 | every cut entry is a wire met away from its ends at one of its own connections |
| Wiring.AddWireRejects | src/main/kotlin/com/ra4king/circuitsim/gui/CircuitBoard.kt:731-815 | addWire throws exactly on a request with a negative end or a zero length |
| Wiring.AddWireSplits | src/main/kotlin/com/ra4king/circuitsim/gui/CircuitBoard.kt:805-807 | splitting the met wires keeps every seated port and every drawn step of the joined board |
| Wiring.AddWireDraws | src/main/kotlin/com/ra4king/circuitsim/gui/CircuitBoard.kt:731-815 | with rejoining off, every step of the wire asked for is drawn afterwards, every step drawn before still is, and every port stays in a net |
| Wiring.AddWireKeepsPorts | src/main/kotlin/com/ra4king/circuitsim/gui/CircuitBoard.kt:731-815 | a successful addWire keeps every port in a net |
| Rejoining.Neighbours | src/main/kotlin/com/ra4king/circuitsim/gui/CircuitBoard.kt:869-874 | the wires of the other wire connections of the same orientation at the point |
| Rejoining.Partner | src/main/kotlin/com/ra4king/circuitsim/gui/CircuitBoard.kt:869-876 | a partner is a wire of the same orientation at the end's point, found only when the point holds exactly two connections and exactly one such wire |
| Rejoining.TakeOpt | src/main/kotlin/com/ra4king/circuitsim/gui/CircuitBoard.kt:883 | taking the partner off changes nothing but the nets and the index |
| Rejoining.Fused | src/main/kotlin/com/ra4king/circuitsim/gui/CircuitBoard.kt:878-907 | the fused wire keeps the orientation and is as long as the wire and its partners together |
| Rejoining.RejoinWire | src/main/kotlin/com/ra4king/circuitsim/gui/CircuitBoard.kt:859-910 | one loop step changes nothing but the nets and the index |
| Rejoining.RejoinWires | src/main/kotlin/com/ra4king/circuitsim/gui/CircuitBoard.kt:850-916 | rejoining does nothing while switched off, and changes nothing but the nets and the index |
| Rejoining.SetRejoinEnabled | src/main/kotlin/com/ra4king/circuitsim/gui/CircuitBoard.kt:51-55 | setting the switch stores it and, when it is on, rejoins at once |
| Rejoining.TakeWireListed | src/main/kotlin/com/ra4king/circuitsim/gui/CircuitBoard.kt:843-847 | taking a wire off lists exactly the other wires |
| Rejoining.TakeWireSeparate | src/main/kotlin/com/ra4king/circuitsim/gui/CircuitBoard.kt:843-847 | taking a wire off keeps the nets apart and takes nothing else |
| Rejoining.TakeWireSane | src/main/kotlin/com/ra4king/circuitsim/gui/CircuitBoard.kt:843-847 | taking a wire off keeps a sane board sane |
| Rejoining.StartPartner | src/main/kotlin/com/ra4king/circuitsim/gui/CircuitBoard.kt:869-886 | a start partner is another listed wire of the same orientation that ends where the wire starts |
| Rejoining.EndPartner | src/main/kotlin/com/ra4king/circuitsim/gui/CircuitBoard.kt:888-901 | an end partner is another listed wire of the same orientation that starts where the wire ends |
| Rejoining.FusedSteps | src/main/kotlin/com/ra4king/circuitsim/gui/CircuitBoard.kt:878-907 | the fused wire covers exactly the steps of the wire and its partners |
| Rejoining.RejoinWireSane | src/main/kotlin/com/ra4king/circuitsim/gui/CircuitBoard.kt:859-910 | one loop step keeps the board sane and draws the same steps |
| Rejoining.FusedEnds | src/main/kotlin/com/ra4king/circuitsim/gui/CircuitBoard.kt:878-907 | the fused wire starts where the wire or its start partner starts and ends where the wire or its end partner ends |
| Rejoining.RejoinKeepsDrawing | src/main/kotlin/com/ra4king/circuitsim/gui/CircuitBoard.kt:850-916 | on a sane board, rejoining keeps it sane and draws exactly the same horizontal and vertical steps |
| Rejoining.RejoinKeepsPorts | src/main/kotlin/com/ra4king/circuitsim/gui/CircuitBoard.kt:850-916 | rejoining leaves every net with the ports it had |
| Removal.ClashesIffOverlaps | src/main/kotlin/com/ra4king/circuitsim/gui/CircuitBoard.kt:558-589 | the four cases the scan tests (the same wire, within, containing, overlapping) together mean exactly that the wires overlap |
| Removal.Pick | src/main/kotlin/com/ra4king/circuitsim/gui/CircuitBoard.kt:555-591 | no wire is picked exactly when no wire connection at the point clashes with the removed wire; otherwise the first clashing one |
| Removal.OverlapSplits | src/main/kotlin/com/ra4king/circuitsim/gui/CircuitBoard.kt:578-588 | splicing two overlapping wires always succeeds and cuts them into three parts |
| Removal.Step | src/main/kotlin/com/ra4king/circuitsim/gui/CircuitBoard.kt:559-588 | one break of the scan marks exactly one wire and queues the parts of the removed wire that remain to do |
| Removal.Queued | src/main/kotlin/com/ra4king/circuitsim/gui/CircuitBoard.kt:559-588 | every queued part lies within the removed wire |
| Removal.StepCuts | src/main/kotlin/com/ra4king/circuitsim/gui/CircuitBoard.kt:559-588 | the marked wire covers exactly the steps the removed and the met wire share; the queued parts cover exactly the removed wire's other steps |
| Removal.ReplacingCovers | src/main/kotlin/com/ra4king/circuitsim/gui/CircuitBoard.kt:566-588 | the wires replacing the met wire cover exactly its steps, and the marked one is among them |
| Removal.ReplaceDraws | src/main/kotlin/com/ra4king/circuitsim/gui/CircuitBoard.kt:566-588 | replacing a wire by wires covering its steps draws the same steps |
| Removal.ScanFrom | src/main/kotlin/com/ra4king/circuitsim/gui/CircuitBoard.kt:552-593 | the scan of one wire keeps every queued element and every marked wire, and queues only wires |
| Removal.UnfileWires | src/main/kotlin/com/ra4king/circuitsim/gui/CircuitBoard.kt:595-596 | exactly the connections of the marked wires leave the index |
| Removal.SplitAll | src/main/kotlin/com/ra4king/circuitsim/gui/CircuitBoard.kt:605-607 | splitting each hit net keeps exactly the listed wires not removed and no new ports, and every net stays coherent |
| Removal.Regroup | src/main/kotlin/com/ra4king/circuitsim/gui/CircuitBoard.kt:605-607 | after regrouping, exactly the wires not removed are listed, and only ports listed before |
| Removal.Loop | src/main/kotlin/com/ra4king/circuitsim/gui/CircuitBoard.kt:541-604 | only the component list and the board's wiring change; the loop ends with an exception exactly when removal from the circuit was asked and some element is a component whose `circuit.removeComponent` throws, and then it is that component's exception and the component is already off the list; without one, a component leaves the list exactly when it was an element and removal from the circuit was asked |
| Removal.LoopUnrefused | src/main/kotlin/com/ra4king/circuitsim/gui/CircuitBoard.kt:545-548 | when no component it removes from the circuit throws, the loop is the loop without any exception |
| Removal.RemoveElements | src/main/kotlin/com/ra4king/circuitsim/gui/CircuitBoard.kt:535-619 | the switch, the drag state and the offset are kept; an exception escapes exactly when removal from the circuit was asked and some element is a component whose `circuit.removeComponent` throws, and it is that component's, with the component off the list; otherwise the components left are exactly those not removed |
| Removal.RemoveElementsStops | src/main/kotlin/com/ra4king/circuitsim/gui/CircuitBoard.kt:545-548 | a component whose removal from the circuit throws stops the removal right after it leaves the board: the later elements are not processed and no net is regrouped or rejoined |
| Removal.RemoveElementsUnrefused | src/main/kotlin/com/ra4king/circuitsim/gui/CircuitBoard.kt:545-548 | when no component's removal from the circuit throws, the removal is the one without exceptions |
| Erasing.ReplacedListed | src/main/kotlin/com/ra4king/circuitsim/gui/CircuitBoard.kt:566-588 | replacing a wire lists exactly the other wires and the new parts, and seats the same ports |
| Erasing.ReplacedUnshared | src/main/kotlin/com/ra4king/circuitsim/gui/CircuitBoard.kt:566-588 | replacing a wire by parts of it keeps every wire in one net |
| Erasing.ReplacedNoOverlap | src/main/kotlin/com/ra4king/circuitsim/gui/CircuitBoard.kt:566-588 | replacing a wire by parts of it keeps the wires from overlapping |
| Erasing.MarkedWithin | src/main/kotlin/com/ra4king/circuitsim/gui/CircuitBoard.kt:559-588 | the marked wire lies within the removed wire |
| Erasing.StepOk | src/main/kotlin/com/ra4king/circuitsim/gui/CircuitBoard.kt:559-588 | a break on a listed wire keeps the scan's invariant |
| Erasing.ScanErases | src/main/kotlin/com/ra4king/circuitsim/gui/CircuitBoard.kt:552-593 | after the scan of a wire, its steps are settled: either no longer drawn or queued for removal |
| Erasing.LoopErases | src/main/kotlin/com/ra4king/circuitsim/gui/CircuitBoard.kt:541-604 | the whole loop keeps its invariant: every step an element covers is settled, and nothing else changes |
| Erasing.RemoveElementsErases | src/main/kotlin/com/ra4king/circuitsim/gui/CircuitBoard.kt:535-619 | on an orderly board with rejoining off, exactly the steps the removed wires cover stop being drawn, and the index still files exactly the listed wires, none overlapping |
| Placement.AttachOne | src/main/kotlin/com/ra4king/circuitsim/gui/CircuitBoard.kt:110-114 | a connection met at a port's point has its net listed, and that net now holds the port as well as the connection |
| Placement.MidWires | src/main/kotlin/com/ra4king/circuitsim/gui/CircuitBoard.kt:115-119 | a wire is collected for re-adding exactly when the port met it away from both of its ends |
| Placement.AttachAll | src/main/kotlin/com/ra4king/circuitsim/gui/CircuitBoard.kt:108-122 | attaching the component's ports only widens nets and keeps every other part of the board; the re-add list stays free of repeats |
| Placement.AttachAllJoins | src/main/kotlin/com/ra4king/circuitsim/gui/CircuitBoard.kt:110-114 | every connection a new port meets ends up in a net with that port |
| Placement.AttachAllFiles | src/main/kotlin/com/ra4king/circuitsim/gui/CircuitBoard.kt:121 | the index gains exactly the ports' connections |
| Placement.AttachAllReAdds | src/main/kotlin/com/ra4king/circuitsim/gui/CircuitBoard.kt:115-119 | the wires to re-add are exactly those some port met away from their ends |
| Placement.ReAddKeepsPorts | src/main/kotlin/com/ra4king/circuitsim/gui/CircuitBoard.kt:123-126 | removing and adding back the met wires leaves every port seated in some net |
| Placement.AddComponent | src/main/kotlin/com/ra4king/circuitsim/gui/CircuitBoard.kt:94-135 | an occupied or negative place fails with "Cannot place component here."; a fault from the circuit is passed on; otherwise the component joins the list and nothing else changes unless wires are split |
| Placement.AddComponentSeats | src/main/kotlin/com/ra4king/circuitsim/gui/CircuitBoard.kt:108-128 | with splitting on, ports seated before stay seated, and every new port that meets a connection is seated |
| Placement.DetachPort | src/main/kotlin/com/ra4king/circuitsim/gui/CircuitBoard.kt:920-921 | only the port's own point loses the port's connection in the index |
| Placement.DetachAll | src/main/kotlin/com/ra4king/circuitsim/gui/CircuitBoard.kt:919-927 | the index loses exactly the component's connections |
| Placement.RemoveComponent | src/main/kotlin/com/ra4king/circuitsim/gui/CircuitBoard.kt:918-931 | a component not on the board changes nothing; otherwise it leaves the list only when asked, and the drag state stays |
| Placement.DetachUnseats | src/main/kotlin/com/ra4king/circuitsim/gui/CircuitBoard.kt:922-923 | a port held by one net is held by none after it leaves |
| Placement.DetachSeated | src/main/kotlin/com/ra4king/circuitsim/gui/CircuitBoard.kt:922-927 | detaching a port seats no new port |
| Placement.DetachListed | src/main/kotlin/com/ra4king/circuitsim/gui/CircuitBoard.kt:922-927 | detaching a port keeps exactly the same wires listed |
| Placement.DetachKeepsPairs | src/main/kotlin/com/ra4king/circuitsim/gui/CircuitBoard.kt:922-927 | two other ports that shared a net still share one |
| Placement.DetachAllNets | src/main/kotlin/com/ra4king/circuitsim/gui/CircuitBoard.kt:919-928 | detaching all the component's ports unseats them, seats nothing new, keeps the wires listed and keeps the nets coherent |
| Placement.RemoveComponentDetaches | src/main/kotlin/com/ra4king/circuitsim/gui/CircuitBoard.kt:918-931 | the component's connections leave the index, its ports leave every net, the listed wires stay, and other ports that shared a net still do |
| Placement.DetachLoose | src/main/kotlin/com/ra4king/circuitsim/gui/CircuitBoard.kt:918-928 | detaching ports that are in no net and not filed changes nothing |
| Placement.AddThenRemove | src/main/kotlin/com/ra4king/circuitsim/gui/CircuitBoard.kt:94-135 | adding a component at a free place without splitting and then removing it restores the board |
| Moves.Dragged | src/main/kotlin/com/ra4king/circuitsim/gui/CircuitBoard.kt:204-207 | finds a dragged component with that identity, or shows there is none |
| Moves.Follow | src/main/kotlin/com/ra4king/circuitsim/gui/CircuitBoard.kt:329-332 | the component list keeps its identities, and a dragged component's entry takes its dragged place |
| Moves.ShiftAllTwice | src/main/kotlin/com/ra4king/circuitsim/gui/CircuitBoard.kt:329-332 | two moves in a row are one move by the summed offsets |
| Moves.ShiftAllZero | src/main/kotlin/com/ra4king/circuitsim/gui/CircuitBoard.kt:329-332 | moving by nothing changes nothing |
| Moves.FollowShift | src/main/kotlin/com/ra4king/circuitsim/gui/CircuitBoard.kt:329-332 | following a moved drag is following the drag at its new place |
| Moves.MoveElements | src/main/kotlin/com/ra4king/circuitsim/gui/CircuitBoard.kt:326-336 | no drag, or the same offset as now, changes nothing; otherwise the offset becomes the one given, and the nets and the index stay |
| Moves.MoveElementsOffset | src/main/kotlin/com/ra4king/circuitsim/gui/CircuitBoard.kt:326-336 | the dragged elements always sit at their starting place plus the current offset |
| Moves.MoveElementsTwice | src/main/kotlin/com/ra4king/circuitsim/gui/CircuitBoard.kt:326-336 | moving to one offset and then to another is moving straight to the second |
| Moves.MoveAndRoute | src/main/kotlin/com/ra4king/circuitsim/gui/CircuitBoard.kt:326-350 | routing is asked for exactly when the move changes something; a failed anchor is always a moved port or wire end |
| Moves.Misplaced | src/main/kotlin/com/ra4king/circuitsim/gui/CircuitBoard.kt:204-208 | true exactly when a dragged component is at an invalid place or a dragged wire has a negative coordinate |
| Moves.PlanMove | src/main/kotlin/com/ra4king/circuitsim/gui/CircuitBoard.kt:200-218 | a misplaced drag is rolled back by the offset and drops the routed wires; otherwise the routing result is used as is |
| Moves.RollbackRestores | src/main/kotlin/com/ra4king/circuitsim/gui/CircuitBoard.kt:209-212 | a rollback puts every element back where the drag began |
| Moves.PlaceAll | src/main/kotlin/com/ra4king/circuitsim/gui/CircuitBoard.kt:221-261 | a selected wire is a placed dragged wire that was not routed; components already on the board stay; with no fault, every dragged component is on the board |
| Moves.Reselect | src/main/kotlin/com/ra4king/circuitsim/gui/CircuitBoard.kt:279-290 | the wires selected afterwards are exactly the listed wires that equal or overlap a placed dragged wire |
| Moves.Selection | src/main/kotlin/com/ra4king/circuitsim/gui/CircuitBoard.kt:275-291 | the new selection holds every dragged component and the reselected wires, and nothing else |
| Moves.PutDown | src/main/kotlin/com/ra4king/circuitsim/gui/CircuitBoard.kt:219-261 | putting down keeps the drag state, selects only placed dragged wires, and with no fault puts every dragged component on the board; the dragged elements and the routes are joined as sets, so each is added once |
| Moves.FinalizeMove | src/main/kotlin/com/ra4king/circuitsim/gui/CircuitBoard.kt:184-312 | no drag gives no selection; a misplaced drag fails with "Cannot move components/wires here."; otherwise the drag ends with offset zero and the selection is the placed elements |
| Moves.InitMove | src/main/kotlin/com/ra4king/circuitsim/gui/CircuitBoard.kt:157-182 | the elements become the drag, and exactly their ports and wire ends are collected when they are lifted off the board |
| Moves.InitMoveStarts | src/main/kotlin/com/ra4king/circuitsim/gui/CircuitBoard.kt:157-182 | a drag started on an idle board is at offset zero from its elements |
| Routing.ConnectedPorts | src/main/kotlin/com/ra4king/circuitsim/gui/CircuitBoard.kt:170-177 | the anchors are exactly the ports and wire ends of the dragged elements, each once |
| Routing.ConnectedPortsOfOne | src/main/kotlin/com/ra4king/circuitsim/gui/CircuitBoard.kt:172-175 | a dragged wire contributes exactly its two ends, a component exactly its ports |
| Routing.CompareRanks | src/main/kotlin/com/ra4king/circuitsim/gui/CircuitBoard.kt:346-349 | the anchor comparator orders by x first and then y, in the direction of the drag, and is antisymmetric |
| Routing.CompareTrans | src/main/kotlin/com/ra4king/circuitsim/gui/CircuitBoard.kt:346-349 | the comparator's order is transitive |
| Routing.InsertAnchor | src/main/kotlin/com/ra4king/circuitsim/gui/CircuitBoard.kt:346-349 | inserting an anchor keeps the list sorted and adds exactly that anchor |
| Routing.SortAnchors | src/main/kotlin/com/ra4king/circuitsim/gui/CircuitBoard.kt:346-349 | the anchors come out sorted by the comparator and are a permutation of the input |
| Routing.Onward | src/main/kotlin/com/ra4king/circuitsim/gui/CircuitBoard.kt:399-407 | every wire with an end at the point is offered by its far end, and nothing else is |
| Routing.Walk | src/main/kotlin/com/ra4king/circuitsim/gui/CircuitBoard.kt:391-435 | the walk only gives back wires it was given or the whole net; a found end is a wire end at a fork or a port, and its wire is counted as traversed |
| Routing.LastNet | src/main/kotlin/com/ra4king/circuitsim/gui/CircuitBoard.kt:365-381 | no net is chosen exactly when no port or wire end is at the source; otherwise it is the net of one of them |
| Routing.Minus | src/main/kotlin/com/ra4king/circuitsim/gui/CircuitBoard.kt:441-442 | the traversed wires are exactly the net's wires the walk did not give back |
| Routing.Source | src/main/kotlin/com/ra4king/circuitsim/gui/CircuitBoard.kt:358-444 | an empty source point is skipped; a port there keeps the source and consumes nothing; any consumed wire belongs to the net found there |
| Routing.CellConnections | src/main/kotlin/com/ra4king/circuitsim/gui/CircuitBoard.kt:458-462 | the connections the router looks at are those of the anchors and earlier routes at the cell, plus those filed at it |
| Routing.AnyBlocks | src/main/kotlin/com/ra4king/circuitsim/gui/CircuitBoard.kt:464-499 | true exactly when some connection at the cell blocks a wire of that orientation |
| Routing.AnyContains | src/main/kotlin/com/ra4king/circuitsim/gui/CircuitBoard.kt:502-506 | true exactly when some component covers the cell |
| Routing.RouteCell | src/main/kotlin/com/ra4king/circuitsim/gui/CircuitBoard.kt:454-508 | the two ends are always usable; another cell is refused exactly when a port or an unconsumed wire blocks it or a component covers it; no cell is preferred |
| Routing.CellQuery | src/main/kotlin/com/ra4king/circuitsim/gui/CircuitBoard.kt:454 | the route asked for runs from the source to the anchor's new place |
| Routing.RouteAvoids | src/main/kotlin/com/ra4king/circuitsim/gui/CircuitBoard.kt:454-508 | every inner point of a route found lies outside all components and holds no port |
| Routing.RouteOne | src/main/kotlin/com/ra4king/circuitsim/gui/CircuitBoard.kt:452-510 | the consumed wires grow by exactly the net walked; earlier routes are kept; the anchor is added to the failed ones or not |
| Routing.RouteFrom | src/main/kotlin/com/ra4king/circuitsim/gui/CircuitBoard.kt:356-511 | failed anchors come from the list, routes and removals only grow, and every removed wire belongs to the net at some anchor's old place |
| Routing.SortedMember | src/main/kotlin/com/ra4king/circuitsim/gui/CircuitBoard.kt:346-349 | sorting keeps exactly the anchors it was given |
| Routing.MovedBack | src/main/kotlin/com/ra4king/circuitsim/gui/CircuitBoard.kt:358-360 | an anchor's old place is its place now minus the offset |
| Routing.ComputeMove | src/main/kotlin/com/ra4king/circuitsim/gui/CircuitBoard.kt:337-526 | every failed anchor is a moved port or wire end, and every wire to remove belongs to the net at one of the anchors' old places |
| PathFinding.Manhattan | src/main/kotlin/com/ra4king/circuitsim/gui/PathFinding.kt:160-164 | the distance is zero exactly when the two points are the same |
| PathFinding.UnitStepAxis | src/main/kotlin/com/ra4king/circuitsim/gui/PathFinding.kt:142-155 | a step in one of the four directions changes exactly one coordinate by one |
| PathFinding.Neighbors | src/main/kotlin/com/ra4king/circuitsim/gui/PathFinding.kt:55-81 | every queued neighbour is one allowed step from the current point, never back the way it came, and every such allowed step is queued |
| PathFinding.NeighborsFrom | src/main/kotlin/com/ra4king/circuitsim/gui/PathFinding.kt:55-81 | the same, for the directions taken so far |
| PathFinding.FirstMin | src/main/kotlin/com/ra4king/circuitsim/gui/PathFinding.kt:173-177 | the node polled has the least score, and no earlier node has the same score |
| PathFinding.Poll | src/main/kotlin/com/ra4king/circuitsim/gui/PathFinding.kt:173-177 | the priority queue hands out a node of least score |
| PathFinding.IndexOf | src/main/kotlin/com/ra4king/circuitsim/gui/PathFinding.kt:32-49 | a visited point is found where it was first recorded |
| PathFinding.Chain | src/main/kotlin/com/ra4king/circuitsim/gui/PathFinding.kt:88-105 | following parents from a visited point reaches the source through allowed steps only |
| PathFinding.Pieces | src/main/kotlin/com/ra4king/circuitsim/gui/PathFinding.kt:92-110 | the route is cut into straight pieces that run end to end from the last point back to the source, with corners only at route points |
| PathFinding.PiecesStep | src/main/kotlin/com/ra4king/circuitsim/gui/PathFinding.kt:95-97 | consecutive route points differ in exactly one coordinate |
| PathFinding.PieceWire | src/main/kotlin/com/ra4king/circuitsim/gui/PathFinding.kt:98-99 | the wire of a straight piece has the piece's two points as its ends and is horizontal exactly when they share a row |
| PathFinding.PieceWires | src/main/kotlin/com/ra4king/circuitsim/gui/PathFinding.kt:88-113 | the path holds exactly the pieces' wires, each once |
| PathFinding.ConstructPath | src/main/kotlin/com/ra4king/circuitsim/gui/PathFinding.kt:88-113 | the wires built are straight pieces end to end from the visited point back to the source along a route the router may take |
| PathFinding.Search | src/main/kotlin/com/ra4king/circuitsim/gui/PathFinding.kt:37-85 | a result is either no wires or a route from the destination back to the source through allowed points |
| PathFinding.SearchStep | src/main/kotlin/com/ra4king/circuitsim/gui/PathFinding.kt:46-81 | recording a polled point and queuing its neighbours keeps every visited point and queued node reachable by allowed steps |
| PathFinding.BestPath | src/main/kotlin/com/ra4king/circuitsim/gui/PathFinding.kt:22-86 | a destination with a negative coordinate gives no wires; any route found runs from the destination to the source through points the callback does not refuse |
| PathFinding.BestPathSamePoint | src/main/kotlin/com/ra4king/circuitsim/gui/PathFinding.kt:35-110 | routing a point to itself gives an empty path |
| EditHistory.Clear | src/main/kotlin/com/ra4king/circuitsim/gui/EditHistory.kt:115-118 | both stacks are emptied and the open groups and depths stay |
| EditHistory.DisableEnable | src/main/kotlin/com/ra4king/circuitsim/gui/EditHistory.kt:122-130 | disabling and then enabling restores the history without a fault |
| EditHistory.BeginGroup | src/main/kotlin/com/ra4king/circuitsim/gui/EditHistory.kt:143-146 | a new empty innermost group opens and the stacks stay |
| EditHistory.Push | src/main/kotlin/com/ra4king/circuitsim/gui/EditHistory.kt:155-158 | a group pushed goes on top, and the oldest is dropped only when the stack would exceed 300 groups |
| EditHistory.EndGroup | src/main/kotlin/com/ra4king/circuitsim/gui/EditHistory.kt:148-165 | closing with no group open fails with "Mismatched call to endGroup."; closing the outermost pushes its edits unless empty; closing an inner one merges it into its parent |
| EditHistory.ClearGroupAsWritten | src/main/kotlin/com/ra4king/circuitsim/gui/EditHistory.kt:167-172 | with no group open the code reads index -1 and fails with an index error rather than the intended message |
| EditHistory.ClearGroup | src/main/kotlin/com/ra4king/circuitsim/gui/EditHistory.kt:167-172 | fails exactly when no group is open; otherwise the innermost group is emptied and every deeper one dropped |
| EditHistory.ClearGroupDiffers | src/main/kotlin/com/ra4king/circuitsim/gui/EditHistory.kt:167-172 | the code as written and the corrected one agree whenever a group is open and differ exactly when none is |
| EditHistory.AddAction | src/main/kotlin/com/ra4king/circuitsim/gui/EditHistory.kt:174-184 | with recording disabled nothing happens; otherwise the edit goes into the open group or onto the undo stack as a group of its own, the redo stack is cleared and the listeners hear it |
| EditHistory.EditStackSize | src/main/kotlin/com/ra4king/circuitsim/gui/EditHistory.kt:186 | the size counts an open group as one more entry and never exceeds 301 |
| EditHistory.UndoSteps | src/main/kotlin/com/ra4king/circuitsim/gui/EditHistory.kt:202-207 | the popped group's edits are undone last to first |
| EditHistory.RedoSteps | src/main/kotlin/com/ra4king/circuitsim/gui/EditHistory.kt:231-235 | the popped group's edits are redone first to last |
| EditHistory.Undo | src/main/kotlin/com/ra4king/circuitsim/gui/EditHistory.kt:190-216 | an empty undo stack gives no manager and changes nothing; otherwise the top group moves to the redo stack, its edits are undone in reverse, and the first edit's manager is returned |
| EditHistory.Redo | src/main/kotlin/com/ra4king/circuitsim/gui/EditHistory.kt:218-244 | an empty redo stack gives no manager and changes nothing; otherwise the top group moves back onto the undo stack and its edits are redone in order |
| EditHistory.UndoThenRedo | src/main/kotlin/com/ra4king/circuitsim/gui/EditHistory.kt:190-244 | redoing what was just undone restores the history and replays the same edits in the opposite order |
| EditHistory.RedoThenUndo | src/main/kotlin/com/ra4king/circuitsim/gui/EditHistory.kt:190-244 | undoing what was just redone restores the history exactly when the undo stack was not full |
| EditHistory.FullStackDropsOldest | src/main/kotlin/com/ra4king/circuitsim/gui/EditHistory.kt:174-184 | recording into a full undo stack drops the oldest group and keeps the size at 300 |
| GuiUtil.Order | src/main/kotlin/com/ra4king/circuitsim/gui/GuiUtils.kt:257-268 | walking the facing list wraps round after south back to east |
| GuiUtil.Steps | src/main/kotlin/com/ra4king/circuitsim/gui/GuiUtils.kt:266-268 | the loop turns the fewest quarter turns, at most three, that lead from the source facing to the destination |
| GuiUtil.StepsAdd | src/main/kotlin/com/ra4king/circuitsim/gui/GuiUtils.kt:257-268 | quarter turns from one facing to another and on to a third add up modulo a full turn |
| GuiUtil.Quarter | src/main/kotlin/com/ra4king/circuitsim/gui/GuiUtils.kt:243-249 | a quarter-turned port keeps its index and name |
| GuiUtil.QuarterStep | src/main/kotlin/com/ra4king/circuitsim/gui/GuiUtils.kt:243-249 | one more turn, with width and height swapped, is one more quarter |
| GuiUtil.RotatedQuarter | src/main/kotlin/com/ra4king/circuitsim/gui/GuiUtils.kt:264-272 | the loop that alternates width and height is the rotation by that many quarters, modulo a full turn |
| GuiUtil.RotatePorts | src/main/kotlin/com/ra4king/circuitsim/gui/GuiUtils.kt:252-277 | the port list keeps its length and each port is turned by the quarters from source to destination facing |
| GuiUtil.RotateElementSize | src/main/kotlin/com/ra4king/circuitsim/gui/GuiUtils.kt:280-295 | an even number of turns keeps the size and an odd number swaps width and height |
| GuiUtil.SwappedParity | src/main/kotlin/com/ra4king/circuitsim/gui/GuiUtils.kt:289-294 | swapping width and height k times is a swap exactly when k is odd |
| GuiUtil.RotateSame | src/main/kotlin/com/ra4king/circuitsim/gui/GuiUtils.kt:252-295 | turning to the facing already held changes neither ports nor size |
| GuiUtil.RotateKeepsInBox | src/main/kotlin/com/ra4king/circuitsim/gui/GuiUtils.kt:243-295 | a port on the component's box stays on the turned component's box |
| GuiUtil.RotateCompose | src/main/kotlin/com/ra4king/circuitsim/gui/GuiUtils.kt:252-295 | turning in two goes, the second with the size the first produced, is turning in one go |
| GuiUtil.QuarterCompose | src/main/kotlin/com/ra4king/circuitsim/gui/GuiUtils.kt:243-249 | i quarter turns followed by j are (i + j) modulo four quarter turns |
| GuiUtil.FullTurn | src/main/kotlin/com/ra4king/circuitsim/gui/GuiUtils.kt:243-272 | four quarter turns bring every port back |
| IntegerStrings.SplitText | src/main/java/com/ra4king/circuitsim/gui/properties/IntegerString.java:41-68 | a leading '-' always makes the number negative |
| IntegerStrings.ParseUnsignedInt | src/main/java/com/ra4king/circuitsim/gui/properties/IntegerString.java:72 | an accepted magnitude, read as an Int, lies in the 32-bit signed range |
| IntegerStrings.Parse | src/main/java/com/ra4king/circuitsim/gui/properties/IntegerString.java:40-89 | the text parses exactly when its digits after sign and prefix are valid in the chosen base; a failure is a simulation error; the value is a 32-bit Int, negative texts keep their '-' |
| IntegerStrings.FromInt | src/main/java/com/ra4king/circuitsim/gui/properties/IntegerString.java:95-99 | the Int constructor keeps the value in base 10 |
| IntegerStrings.PrefixedString | src/main/java/com/ra4king/circuitsim/gui/properties/IntegerString.java:112-119 | binary text starts with "0b", decimal with "#", hexadecimal with "0x" |
| IntegerStrings.TextStart | src/main/java/com/ra4king/circuitsim/gui/properties/IntegerString.java:114-118 | the digits of a magnitude have no sign or '#' in front and read back as the magnitude |
| IntegerStrings.SignedParse | src/main/java/com/ra4king/circuitsim/gui/properties/IntegerString.java:114-115 | an Int's signed digits, read back after their sign, give the Int |
| IntegerStrings.PrefixedRoundTrip | src/main/java/com/ra4king/circuitsim/gui/properties/IntegerString.java:112-118 | parsing the prefixed text of any Int in base 2, 10 or 16 gives back an equal value, whatever the default base |
| IntegerStrings.HexRoundTrip | src/main/java/com/ra4king/circuitsim/gui/properties/IntegerString.java:116 | the same for hexadecimal text, whose digits are the 32 bits of the Int |
| IntegerStrings.SignedRoundTrip | src/main/java/com/ra4king/circuitsim/gui/properties/IntegerString.java:114-115 | the same for binary and decimal text |
| IntegerStrings.ParseOf | src/main/java/com/ra4king/circuitsim/gui/properties/IntegerString.java:40-76 | when the digits after sign and prefix parse, the constructor succeeds in the chosen base with the signed value wrapped to 32 bits |
| IntegerStrings.Int32Bits | src/main/java/com/ra4king/circuitsim/gui/properties/IntegerString.java:116 | an Int's 32 bits read back as an Int are the Int |
| IntegerStrings.FromIntRoundTrip | src/main/java/com/ra4king/circuitsim/gui/properties/IntegerString.java:95-99 | the text of an Int parses in base 10 back to exactly the same value and text |
| IntegerStrings.DecimalNotPrefixed | src/main/java/com/ra4king/circuitsim/gui/properties/IntegerString.java:98 | decimal digits never look like a base prefix |
| IntegerStrings.SplitComposed | src/main/java/com/ra4king/circuitsim/gui/properties/IntegerString.java:41-68 | a sign, a prefix and digits are taken apart into exactly those parts |
| IntegerStrings.PrefixComposed | src/main/java/com/ra4king/circuitsim/gui/properties/IntegerString.java:48-63 | a known prefix selects its base and leaves the rest |
| IntegerStrings.TextRoundTripFails | src/main/java/com/ra4king/circuitsim/gui/properties/IntegerString.java:77-88 | as written, "0xb1" in default base 16 keeps the text "b1", which reads back as binary 1 rather than 177 |
| IntegerStrings.ParseCorrected | src/main/java/com/ra4king/circuitsim/gui/properties/IntegerString.java:77-88 | with the prefix kept whenever the digits would otherwise look prefixed, the constructor accepts the same texts and gives equal values |
| IntegerStrings.CorrectedTextRoundTrip | src/main/java/com/ra4king/circuitsim/gui/properties/IntegerString.java:77-88 | with the corrected prefix, parsing a value's text gives back exactly that value |
| ListValidators.FirstShownAs | src/main/java/com/ra4king/circuitsim/gui/properties/PropertyListValidator.java:65-69 | finds the first value from the given position that displays as the text, or shows there is none |
| ListValidators.Parse | src/main/java/com/ra4king/circuitsim/gui/properties/PropertyListValidator.java:64-72 | parsing succeeds exactly when some value displays as the text, giving the first such value; otherwise it fails with "Value not found: " and the text |
| ListValidators.ParseShow | src/main/java/com/ra4king/circuitsim/gui/properties/PropertyListValidator.java:64-77 | parsing a value's text gives a value with the same text, and the value itself when no earlier value shows the same |
| ListValidators.Equals | src/main/java/com/ra4king/circuitsim/gui/properties/PropertyListValidator.java:54-61 | validators are equal exactly when their lists are, and any other object is reported equal |
| ListValidators.EqualsNotSymmetric | src/main/java/com/ra4king/circuitsim/gui/properties/PropertyListValidator.java:54-61 | as written, a validator claims to equal an object of another class, which does not return the favour |
| ListValidators.EqualsCorrectedSymmetric | src/main/java/com/ra4king/circuitsim/gui/properties/PropertyListValidator.java:54-61 | the corrected equality is reflexive and symmetric and agrees with the written one on validators |
| ListValidators.EqualValidatorsParseDifferently | src/main/java/com/ra4king/circuitsim/gui/properties/PropertyListValidator.java:54-72 | two validators with the same list but different display functions are equal yet parse "a" to different values |
| Versions.DigitRun | src/main/kotlin/com/ra4king/circuitsim/gui/CircuitSimVersion.kt:33 | the run of digits is as long as it can be |
| Versions.DigitRunStops | src/main/kotlin/com/ra4king/circuitsim/gui/CircuitSimVersion.kt:33 | a digit run that ends at a non-digit or the end is the longest run |
| Versions.MatchAt | src/main/kotlin/com/ra4king/circuitsim/gui/CircuitSimVersion.kt:33 | a match at a position has the pattern's shape: three digit groups joined by dots, then an optional 'b' |
| Versions.MatchAtComplete | src/main/kotlin/com/ra4king/circuitsim/gui/CircuitSimVersion.kt:33 | wherever the shape is present, the pattern matches, with the same first two groups and a third group at least as long |
| Versions.ThirdGroupLongest | src/main/kotlin/com/ra4king/circuitsim/gui/CircuitSimVersion.kt:33 | the greedy third group reaches at least as far as any digit run |
| Versions.FindFrom | src/main/kotlin/com/ra4king/circuitsim/gui/CircuitSimVersion.kt:14-16 | the search finds the leftmost position where the pattern matches, or shows there is none |
| Versions.InvalidIffNoMatch | src/main/kotlin/com/ra4king/circuitsim/gui/CircuitSimVersion.kt:14-16 | text with no match fails with "Invalid version string: " and the text |
| Versions.DecimalInt | src/main/kotlin/com/ra4king/circuitsim/gui/CircuitSimVersion.kt:18-20 | a digit group reads as its decimal value exactly when it is non-empty and that value is below 2^31; otherwise NumberFormatException with the message For input string: and the group in quotes |
| Versions.DecimalDigits | src/main/kotlin/com/ra4king/circuitsim/gui/CircuitSimVersion.kt:18-20 | reading the digits one at a time as Character.digit does gives the group's decimal value |
| Versions.Parse | src/main/kotlin/com/ra4king/circuitsim/gui/CircuitSimVersion.kt:12-22 | no match fails; a match gives a version exactly when its three groups fit in an Int, keeping the text |
| Versions.DecimalText | src/main/kotlin/com/ra4king/circuitsim/gui/CircuitSimVersion.kt:18-20 | the decimal text of a number is all digits and reads back as the number |
| Versions.ParseFormat | src/main/kotlin/com/ra4king/circuitsim/gui/CircuitSimVersion.kt:12-22 | the canonical text of a version parses back to the same fields |
| Versions.FormatMatch | src/main/kotlin/com/ra4king/circuitsim/gui/CircuitSimVersion.kt:33 | the canonical text of digit groups matches at the start with exactly those groups |
| Versions.CurrentVersion | src/main/kotlin/com/ra4king/circuitsim/gui/CircuitSimVersion.kt:36 | the built-in version "1.11.0-CE" is release 1.11.0 and not a beta |
| Versions.Sign | src/main/kotlin/com/ra4king/circuitsim/gui/CircuitSimVersion.kt:24-30 | the sign of a number is -1, 0 or 1 and agrees with the number |
| Versions.Compare | src/main/kotlin/com/ra4king/circuitsim/gui/CircuitSimVersion.kt:24-30 | the comparison is -1, 0 or 1, and 0 against no version |
| Versions.CompareIsLexicographic | src/main/kotlin/com/ra4king/circuitsim/gui/CircuitSimVersion.kt:24-30 | versions compare by major, minor and bugfix in turn, a beta before its release |
| Versions.CompareAntisymmetric | src/main/kotlin/com/ra4king/circuitsim/gui/CircuitSimVersion.kt:24-30 | swapping the versions negates the comparison |
| Versions.CompareTransitive | src/main/kotlin/com/ra4king/circuitsim/gui/CircuitSimVersion.kt:24-30 | the comparison is transitive |

## Left out

- Exception messages of ShortCircuitException and of the JVM's own errors: a short circuit prints the two wire values it met (src/main/kotlin/com/ra4king/circuitsim/simulator/Exceptions.kt:22-23), and index, null and stack-overflow errors carry the JVM's text; the model's faults for these name the class only, so callers that compare messages cannot tell two short circuits apart.
- JavaFX presentation is not modelled. That covers painting, fonts, menus, dialogs and the property editors' `createGui`, none of which affects the circuit.
- `GuiUtils.getCircuitCoord` and `getScreenCircuitCoord` are not modelled: they round doubles. `BLOCK_SIZE` is modelled, as the scale between grid and screen.
- Threads and locks are not modelled: `runSync`, the background routing thread and its latch, and `synchronized` blocks. Calls are taken as sequential, and routing is computed on a snapshot of the board. Thread interruption becomes a function of the iteration count.
- File I/O is not modelled. The RAM and ROM contents come in as parsed words, and `PropertyMemoryValidator`'s file parsing is not part of this model.
- `netAddrBits` is not defined in any of the modelled files. It is a parameter of the ROM and RAM functions.
- Shifters.ShiftBits: `getShiftBits` computes a logarithm in floating point. It is modelled as the exact ceiling of log2, and floating-point rounding is not modelled.
- WireValues.Value: its own contract states the number only up to 32 bits; above 32 bits the Int is given bit by bit by WireValues.ValueBits, not as one closed formula.
- IntegerStrings.Parse: the model accepts only the ASCII digits 0-9 and the letters a-z and A-Z as digits; `Integer.parseUnsignedInt` (IntegerString.java:72) goes through `Character.digit`, which also accepts other Unicode decimal digits and the fullwidth Latin letters; the model rejects those texts.
- Circuits: change listeners are modelled as a log of (component, added) events rather than callbacks.
- Circuits.RemoveOne: the `circuit` setter also runs when the field goes back to null at the end of a removal. That check is not modelled: with no owner it cannot report a loop (Subcircuits.ClearingFindsNoLoop), and it could only overflow the stack on an embedding cycle, which the adding check rules out.
- Circuits.UpdateComponent: when the new component's setter throws after an `uninit` of the old one threw, the code keeps the `uninit` exception in its `exception` field and throws it from the next add, remove or update. The model returns the setter's exception and does not carry the other forward.
- Boards: `updateBadLinks` and the edit-history calls inside board operations are left out. They only record undo steps and highlight nets.
- Boards: `CircuitBoard.updateComponent` and `destroy` are left out. They are compositions of the modelled remove and add operations.
- Subcircuits.CheckLoop: the recursion has no visited set, so a cycle of embeddings away from the owner recurses until the stack overflows. `fuel` stands for the stack depth.
- Simulator.StepAll: the loop is bounded by `fuel`. The contract speaks of the finished case; when fuel runs out the result is marked unfinished.
- Removal.Loop: the number of pieces queued has no simple bound, so `fuel` bounds the rounds. `None` means it ran out. Moves.InitMove and Moves.FinalizeMove pass this bound through.
- Removal.RemoveElements: what `circuit.removeComponent` throws (src/main/kotlin/com/ra4king/circuitsim/simulator/Circuit.kt:101-108) is an input, one exception per component identity. The circuit's own state, and a pending exception left by an earlier call, are not threaded through the board's removal.
- Removal.Regroup: the kept nets come first and the regrouped nets after them. The code's `HashSet` of nets has no order.
- Wiring.AddWireDraws: stated with rejoining switched off and an index that files exactly the listed wires. With rejoining on, the drawn steps are kept but may be fused into longer wires, which Rejoining.RejoinKeepsDrawing states separately.
- Erasing.RemoveElementsErases: stated for boards whose index and nets agree, no two wires overlap, and no wire is in two nets, with rejoining switched off, and for a removal that completes; when a component's removal from the circuit throws, the board is left mid-loop and nothing is promised about its drawing. That wires are never shared between nets is kept by each operation proved here, not for every board.
- Routing.SortAnchors: the sort is not shown to be stable. Anchors at the same point compare equal and only the first of them is routed, so the order among them does not change the routes.
- Plexers.MuxChanged: a change on the selected data input is pushed through as it is, even when partly Z. A selector change with such an input selected pushes all Z instead. The model keeps this difference, and its contract does not state a single rule for both.
- The Kotlin `hashCode` methods are not modelled.
- Editor coordinates: grid positions, wire lengths, the `BLOCK_SIZE` scaling and the routing arithmetic (`GuiElements`, `Wires`, `Connections`, `Boards`, `Routing`, `PathFinding`) are unbounded integers. Kotlin `Int` overflow in them is not modelled; the model takes boards to be far smaller than 2^31 grid units.
- Routing.CompareRanks: the comparator subtracts coordinates (src/main/kotlin/com/ra4king/circuitsim/gui/CircuitBoard.kt:346-349). In Kotlin that subtraction overflows for anchors 2^31 or more apart, and the comparator is then not a total order. The model subtracts unbounded integers, so the order proved holds only for such boards.

## Findings

| source | as written | input that shows it | evidently intended | confidence | as-written member | corrected member |
|---|---|---|---|---|---|---|
| src/main/kotlin/com/ra4king/circuitsim/simulator/components/arithmetic/Subtractor.kt:23-29 | the borrow is `a - b - c < 0` on signed 32-bit `Int` values | width 32, A = 0x80000000, B = 0, carry-in 0: A >= B as unsigned inputs, yet the borrow is 1 | borrow is 1 exactly when A < B + carry-in as unsigned numbers | medium, not executed | Adders.SubtractorBorrowAt32 | Adders.BorrowSubtractorEquation |
| src/main/kotlin/com/ra4king/circuitsim/simulator/components/memory/RAM.kt:122-128 | clear stores 0 at addresses 0 until the word count, and each store goes to word `effective(i)` | a 32-bit RAM with byte addressing and four words 1, 2, 3, 4: only word 0 is cleared | every word is cleared | high, not executed | Memories.ClearMissesLastWord | Memories.ClearEveryWord |
| src/main/java/com/ra4king/circuitsim/gui/properties/IntegerString.java:77-88 | the prefix is dropped from the text whenever the base equals the default | "0xb1" with default base 16 keeps the text "b1", and "b1" reads back as binary 1 | the text reads back as the same value | medium, not executed | IntegerStrings.TextRoundTripFails | IntegerStrings.CorrectedTextRoundTrip |
| src/main/java/com/ra4king/circuitsim/gui/properties/PropertyListValidator.java:54-61 | `equals` returns true for any object that is not a list validator | any validator compared with a string is equal to it, but not the other way round | false for objects of other classes, so equality is symmetric | high, not executed | ListValidators.EqualsNotSymmetric | ListValidators.EqualsCorrectedSymmetric |
| src/main/kotlin/com/ra4king/circuitsim/gui/EditHistory.kt:167-172 | `checkNotNull(groups)` can never fail, so with no group open `groups[-1]` is read | `clearGroup()` on a fresh history throws an index error | fail with "No group started" | high, not executed | EditHistory.ClearGroupAsWritten | EditHistory.ClearGroupDiffers |
