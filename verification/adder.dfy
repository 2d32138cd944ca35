/** The adder and the subtractor (Adder.kt, Subtractor.kt).

    Both have ports A, B, carry-in, result, carry-out, with widths
    [n, n, 1, n, 1]. Events on the two outputs are ignored; when any input
    is not a valid value both outputs float. */
module Adders {
  import opened BitMath
  import opened WireValues
  import opened Components

  function Widths(n: nat): seq<nat> { [n, n, 1, n, 1] }

  /** A, B and the carry-in all hold valid values. */
  predicate InputsValid(recv: Received)
    requires |recv| >= 3
  {
    IsValid(recv[0]) && IsValid(recv[1]) && IsValid(recv[2])
  }

  /** The carry-in as a number: 1 exactly when its bit is ONE. */
  function CarryIn(w: WireValue): nat
    requires |w| >= 1
  {
    if w[0] == ONE then 1 else 0
  }

  /** Both outputs floating: the answer to an invalid input. */
  function FloatingOutputs(n: nat): seq<Push>
  {
    [Push(3, Floating(n)), Push(4, Floating(1))]
  }

  // ----- adder -----

  /** The sum bit of a full adder: the exclusive or of the three ONE tests. */
  function SumBit(a: State, b: State, c: State): State
  {
    if ((a == ONE) != (b == ONE)) != (c == ONE) then ONE else ZERO
  }

  /** The carry of a full adder: ONE when at least two of the three are ONE. */
  function CarryBit(a: State, b: State, c: State): State
  {
    if (a == ONE && b == ONE) || (a == ONE && c == ONE) || (b == ONE && c == ONE) then ONE else ZERO
  }

  /** The ripple-carry loop from bit 0 upwards: the sum bits and the final carry. */
  function Ripple(a: WireValue, b: WireValue, carry: State): (r: (WireValue, State))
    requires |a| == |b| && carry != Z
    ensures |r.0| == |a| && Driven(r.0) && r.1 != Z
    decreases |a|
  {
    if |a| == 0 then ([], carry)
    else
      var rest := Ripple(a[1..], b[1..], CarryBit(a[0], b[0], carry));
      ([SumBit(a[0], b[0], carry)] + rest.0, rest.1)
  }

  /** The ripple-carry loop adds: the sum plus the weighted final carry is
      A + B + the incoming carry. */
  lemma {:induction false} RippleAdds(a: WireValue, b: WireValue, carry: State)
    requires |a| == |b| && carry != Z
    ensures var (sum, cout) := Ripple(a, b, carry);
      UValue(sum) + Pow2(|a|) * BitWeight(cout) == UValue(a) + UValue(b) + BitWeight(carry)
    decreases |a|
  {
    if |a| > 0 {
      var c1 := CarryBit(a[0], b[0], carry);
      var rest := Ripple(a[1..], b[1..], c1);
      RippleAdds(a[1..], b[1..], c1);
      var s0 := SumBit(a[0], b[0], carry);
      assert BitWeight(s0) + 2 * BitWeight(c1) == BitWeight(a[0]) + BitWeight(b[0]) + BitWeight(carry);
      var out := Ripple(a, b, carry).0;
      assert out == [s0] + rest.0;
      assert out[1..] == rest.0;
      var p, w := Pow2(|a| - 1), BitWeight(rest.1);
      assert UValue(rest.0) + p * w == UValue(a[1..]) + UValue(b[1..]) + BitWeight(c1);
      Distribute(UValue(rest.0), p, w);
    }
  }

  /** `Adder.valueChanged`. */
  function AdderChanged(n: nat, recv: Received, port: nat): (r: seq<Push>)
    requires Fits(recv, Widths(n)) && port < 5
    ensures port >= 3 <==> r == []
    ensures r != [] ==> |r| == 2 && r[0].port == 3 && r[1].port == 4 && |r[0].value| == n && |r[1].value| == 1
    ensures r != [] && !InputsValid(recv) ==> r == FloatingOutputs(n)
  {
    if port >= 3 then []
    else if InputsValid(recv) then
      var carry := if recv[2][0] == ONE then ONE else ZERO;
      var (sum, cout) := Ripple(recv[0], recv[1], carry);
      [Push(3, sum), Push(4, [cout])]
    else FloatingOutputs(n)
  }

  /** With valid inputs the adder's outputs are driven and satisfy the
      ripple-carry equation: out + 2^n * carry-out == A + B + carry-in. */
  lemma AdderSum(n: nat, recv: Received, port: nat)
    requires Fits(recv, Widths(n)) && port < 3 && InputsValid(recv)
    ensures var r := AdderChanged(n, recv, port);
      && Driven(r[0].value) && Driven(r[1].value)
      && UValue(r[0].value) + Pow2(n) * UValue(r[1].value) == UValue(recv[0]) + UValue(recv[1]) + UValue(recv[2])
  {
    var carry := if recv[2][0] == ONE then ONE else ZERO;
    RippleAdds(recv[0], recv[1], carry);
    var cout := Ripple(recv[0], recv[1], carry).1;
    assert UValue([cout]) == BitWeight(cout);
    assert UValue(recv[2]) == BitWeight(carry);
  }

  // ----- subtractor -----

  /** `Subtractor.valueChanged` as the source writes it: A and B are read
      through the `value` getter as Kotlin Ints, the difference a - b - c is
      an Int (it wraps at 32 bits), the output is its low n bits and the
      borrow is 1 exactly when that Int is negative. */
  function SubtractorChanged(n: nat, recv: Received, port: nat): (r: seq<Push>)
    requires Fits(recv, Widths(n)) && port < 5
    ensures port >= 3 <==> r == []
    ensures r != [] ==> |r| == 2 && r[0].port == 3 && r[1].port == 4 && |r[0].value| == n && |r[1].value| == 1
    ensures r != [] && !InputsValid(recv) ==> r == FloatingOutputs(n)
  {
    if port >= 3 then []
    else if InputsValid(recv) then
      var a := Value(recv[0]).value;
      var b := Value(recv[1]).value;
      var d := Wrap32(a - b - CarryIn(recv[2]));
      [Push(3, Of(d, n)), Push(4, Of(if d < 0 then 1 else 0, 1))]
    else FloatingOutputs(n)
  }

  /** The difference output is A - B - carry-in modulo 2^n, for every width
      the `value` getter reads exactly (up to 32). */
  lemma SubtractorDifference(n: nat, recv: Received, port: nat)
    requires Fits(recv, Widths(n)) && port < 3 && InputsValid(recv) && n <= 32
    ensures UValue(SubtractorChanged(n, recv, port)[0].value)
            == (UValue(recv[0]) - UValue(recv[1]) - CarryIn(recv[2])) % Pow2(n)
  {
    var ua, ub, c := UValue(recv[0]), UValue(recv[1]), CarryIn(recv[2]);
    var a, b := Value(recv[0]).value, Value(recv[1]).value;
    SubtractorDifferenceOut(n, recv, port);
    assert a % TWO_32 == ua % TWO_32 by { ValueMod32(recv[0]); }
    assert b % TWO_32 == ub % TWO_32 by { ValueMod32(recv[1]); }
    DifferenceBits(n, a, b, ua, ub, c, SubtractorChanged(n, recv, port)[0].value);
  }

  /** `of` the wrapped difference of Ints reads back as the difference of
      any congruent operands, modulo 2^n. */
  lemma DifferenceBits(n: nat, a: int, b: int, ua: int, ub: int, c: int, out: WireValue)
    requires n <= 32 && a % TWO_32 == ua % TWO_32 && b % TWO_32 == ub % TWO_32
    requires out == Of(Wrap32(a - b - c), n)
    ensures UValue(out) == (ua - ub - c) % Pow2(n)
  {
    WrappedDifference(a, b, ua, ub, c);
    OfUValueMod(Wrap32(a - b - c), ua - ub - c, n);
  }

  /** The difference output of the subtractor as written: `of` the wrapped
      Int difference. */
  lemma SubtractorDifferenceOut(n: nat, recv: Received, port: nat)
    requires Fits(recv, Widths(n)) && port < 3 && InputsValid(recv)
    ensures SubtractorChanged(n, recv, port)[0].value
            == Of(Wrap32(Value(recv[0]).value - Value(recv[1]).value - CarryIn(recv[2])), n)
  {
  }

  /** Wrapping a difference keeps it modulo 2^32, whichever congruent
      operands it is formed from. */
  lemma WrappedDifference(a: int, b: int, ua: int, ub: int, c: int)
    requires a % TWO_32 == ua % TWO_32 && b % TWO_32 == ub % TWO_32
    ensures Wrap32(a - b - c) % TWO_32 == (ua - ub - c) % TWO_32
  {
    ModDifference(a, b, ua, ub, c, TWO_32);
    Wrap32Mod(a - b - c);
  }

  /** Below 32 bits the Int arithmetic cannot wrap, and the borrow is the
      unsigned borrow: ONE exactly when A < B + carry-in. */
  lemma SubtractorBorrowNarrow(n: nat, recv: Received, port: nat)
    requires Fits(recv, Widths(n)) && port < 3 && InputsValid(recv) && n < 32
    ensures SubtractorChanged(n, recv, port)[1].value
            == [if UValue(recv[0]) < UValue(recv[1]) + CarryIn(recv[2]) then ONE else ZERO]
  {
    var ua: int, ub: int, c: int := UValue(recv[0]), UValue(recv[1]), CarryIn(recv[2]);
    ValueSmall(recv[0]);
    ValueSmall(recv[1]);
    Pow2Mono(n, 31);
    Pow2Values();
    Wrap32Mod(ua - ub - c);
    assert Of(1, 1)[0] == ONE;
    assert Of(0, 1)[0] == ZERO;
  }

  /** At 32 bits the borrow is the sign of the wrapped difference instead:
      A = 0x80000000, B = 0 and no carry-in borrow, although A >= B. */
  lemma SubtractorBorrowAt32()
    ensures var recv := [Of(TWO_31, 32), Of(0, 32), [ZERO], Floating(32), Floating(1)];
      && Fits(recv, Widths(32)) && InputsValid(recv)
      && UValue(recv[0]) >= UValue(recv[1]) + CarryIn(recv[2])
      && SubtractorChanged(32, recv, 0)[1].value == [ONE]
  {
    var w0, w1 := Of(TWO_31, 32), Of(0, 32);
    var recv := [w0, w1, [ZERO], Floating(32), Floating(1)];
    MinIntBits();
    ZeroBits();
    assert IsValid(w0) && IsValid(w1) && IsValid([ZERO]);
    BorrowFromMinInt(recv);
  }

  /** Int.MIN_VALUE minus zero with no carry-in: the Int difference stays
      negative, so the carry-out port reads ONE. */
  lemma BorrowFromMinInt(recv: Received)
    requires Fits(recv, Widths(32)) && InputsValid(recv)
    requires Value(recv[0]).value == -TWO_31 && Value(recv[1]).value == 0 && recv[2] == [ZERO]
    ensures SubtractorChanged(32, recv, 0)[1].value == [ONE]
  {
    Wrap32Mod(-TWO_31);
    SubtractorBorrowOut(32, recv, 0);
    assert Of(1, 1)[0] == ONE;
  }

  /** The carry-out of the subtractor as written: ONE exactly when the
      wrapped Int difference is negative. */
  lemma SubtractorBorrowOut(n: nat, recv: Received, port: nat)
    requires Fits(recv, Widths(n)) && port < 3 && InputsValid(recv)
    ensures var d := Wrap32(Value(recv[0]).value - Value(recv[1]).value - CarryIn(recv[2]));
      SubtractorChanged(n, recv, port)[1].value == Of(if d < 0 then 1 else 0, 1)
  {
  }

  /** The 32 bits of Int.MIN_VALUE: 2^31 unsigned, -2^31 signed. */
  lemma MinIntBits()
    ensures var w := Of(TWO_31, 32); UValue(w) == TWO_31 && Value(w).value == -TWO_31
  {
    Pow2Values();
    OfUValue(TWO_31, 32);
    ModSmall(TWO_31, 32);
    assert Value(Of(TWO_31, 32)).value == -TWO_31;
  }

  /** The 32 bits of zero. */
  lemma ZeroBits()
    ensures var w := Of(0, 32); UValue(w) == 0 && Value(w).value == 0
  {
    Pow2Values();
    OfUValue(0, 32);
    assert Value(Of(0, 32)).value == 0;
  }

  /** The subtractor with the borrow its carry-out port stands for: the
      output is the low n bits of A - B - carry-in and the borrow is ONE
      exactly when that difference is negative, on the unsigned readings. */
  function BorrowSubtractorChanged(n: nat, recv: Received, port: nat): (r: seq<Push>)
    requires Fits(recv, Widths(n)) && port < 5
    ensures port >= 3 <==> r == []
    ensures r != [] ==> |r| == 2 && r[0].port == 3 && r[1].port == 4 && |r[0].value| == n && |r[1].value| == 1
    ensures r != [] && !InputsValid(recv) ==> r == FloatingOutputs(n)
  {
    if port >= 3 then []
    else if InputsValid(recv) then
      var x := UValue(recv[0]) - UValue(recv[1]) - CarryIn(recv[2]);
      [Push(3, BitsOf(x, n)), Push(4, [if x < 0 then ONE else ZERO])]
    else FloatingOutputs(n)
  }

  /** The corrected subtractor satisfies the borrow equation at every width:
      out - 2^n * borrow == A - B - carry-in, with the borrow ONE exactly
      when A < B + carry-in. */
  lemma BorrowSubtractorEquation(n: nat, recv: Received, port: nat)
    requires Fits(recv, Widths(n)) && port < 3 && InputsValid(recv)
    ensures var r := BorrowSubtractorChanged(n, recv, port);
      && (r[1].value == [ONE] <==> UValue(recv[0]) < UValue(recv[1]) + CarryIn(recv[2]))
      && UValue(r[0].value) - Pow2(n) * UValue(r[1].value) == UValue(recv[0]) - UValue(recv[1]) - CarryIn(recv[2])
  {
    var x := UValue(recv[0]) - UValue(recv[1]) - CarryIn(recv[2]);
    var p := Pow2(n);
    var r := BorrowSubtractorChanged(n, recv, port);
    var borrow := [if x < 0 then ONE else ZERO];
    assert r[0].value == BitsOf(x, n) && r[1].value == borrow;
    UValueBitsOf(x, n);
    assert UValue(borrow) == if x < 0 then 1 else 0;
    BorrowIdentity(x, p);
  }

  /** A difference in [-p, p) is its residue modulo p, less p when negative. */
  lemma BorrowIdentity(x: int, p: int)
    requires p > 0 && -p <= x < p
    ensures x % p - p * (if x < 0 then 1 else 0) == x
  {
    if x >= 0 {
      DivModUnique(x, p, 0, x);
    } else {
      DivModUnique(x, p, -1, x + p);
    }
  }

  /** Below 32 bits the source's subtractor and the corrected one agree. */
  lemma SubtractorsAgreeNarrow(n: nat, recv: Received, port: nat)
    requires Fits(recv, Widths(n)) && port < 5 && n < 32
    ensures SubtractorChanged(n, recv, port) == BorrowSubtractorChanged(n, recv, port)
  {
    if port < 3 && InputsValid(recv) {
      var ua: int, ub: int, c: int := UValue(recv[0]), UValue(recv[1]), CarryIn(recv[2]);
      var x := ua - ub - c;
      var a, b := Value(recv[0]).value, Value(recv[1]).value;
      assert a == ua && b == ub by {
        ValueSmall(recv[0]);
        ValueSmall(recv[1]);
      }
      assert -TWO_31 <= x < TWO_31 by {
        Pow2Mono(n, 31);
        Pow2Values();
      }
      Wrap32Mod(x);
      assert Wrap32(a - b - c) == x;
      OfBelow64(x, n);
      assert Of(1, 1) == [ONE] && Of(0, 1) == [ZERO] by {
        assert Of(1, 1)[0] == ONE;
        assert Of(0, 1)[0] == ZERO;
      }
      assert SubtractorChanged(n, recv, port) == [Push(3, Of(x, n)), Push(4, Of(if x < 0 then 1 else 0, 1))];
    }
  }
}
