/** The shifter (Shifter.kt): shifts or rotates an n-bit input by the
    amount on a narrow shift port. */
module Shifters {
  import opened Wrappers
  import opened BitMath
  import opened WireValues
  import opened Components
  import opened TwosComplement

  /** `Shifter.ShiftType`. */
  datatype ShiftType = LogicalLeft | LogicalRight | ArithmeticRight | RotateLeft | RotateRight

  /** The least k with n <= 2^k. */
  function CeilLog2(n: nat): (k: nat)
    ensures n <= Pow2(k)
    ensures k > 0 ==> Pow2(k - 1) < n
  {
    if n <= 1 then 0 else 1 + CeilLog2((n + 1) / 2)
  }

  /** `getShiftBits`: the shift port is max(1, ceil(log2 n)) bits wide, the
      fewest bits, and at least one, that can count to the width. */
  function ShiftBits(n: nat): (k: nat)
    ensures k >= 1 && n <= Pow2(k)
    ensures k > 1 ==> Pow2(k - 1) < n
    ensures k == 1 <==> n <= 2
  {
    if CeilLog2(n) < 1 then 1 else CeilLog2(n)
  }

  /** Ports: input, shift amount, output. */
  function ShifterWidths(n: nat): seq<nat> { [n, ShiftBits(n), n] }

  /** Rotating left reads bit (i - s + n) rem n with Kotlin's truncating
      remainder; a negative index there is an ArrayIndexOutOfBounds. */
  predicate RotateLeftFails(n: nat, s: nat)
  {
    exists i | 0 <= i < n :: RotateLeftIndex(i, s, n) < 0
  }

  /** The bit a left rotation reads for output bit i. */
  function RotateLeftIndex(i: int, s: int, n: int): (j: int)
    requires n > 0
    ensures j < n
  {
    TruncRem(i - s + n, n)
  }

  /** The loops of `Shifter.valueChanged` once the output has been cleared
      to ZERO: each shift type fills in the bits it reads from v. */
  function Shifted(t: ShiftType, v: WireValue, s: nat): (r: Result<WireValue>)
    ensures r.Success? ==> |r.value| == |v|
    ensures r.Failure? <==> t == RotateLeft && RotateLeftFails(|v|, s)
  {
    var n := |v|;
    match t
    case LogicalLeft => Success(seq(n, i requires 0 <= i < n => if i >= s then v[i - s] else ZERO))
    case LogicalRight => Success(seq(n, i requires 0 <= i < n => if i + s <= n - 1 then v[i + s] else ZERO))
    case ArithmeticRight =>
      Success(seq(n, i requires 0 <= i < n => if i >= n - s then v[n - 1] else v[(i + s) % n]))
    case RotateRight => Success(seq(n, i requires 0 <= i < n => v[(i + s) % n]))
    case RotateLeft =>
      if RotateLeftFails(n, s) then Failure(IndexOutOfBounds)
      else Success(seq(n, i requires 0 <= i < n => v[RotateLeftIndex(i, s, n)]))
  }

  /** `Shifter.valueChanged`: events on the output are ignored. With an
      invalid shift amount the output floats; otherwise the input is shifted
      by the amount. The `value` of the shift port is its unsigned reading
      because the port is narrower than 32 bits (`ShiftAmount`). */
  function ShifterChanged(t: ShiftType, n: nat, recv: Received, port: nat): (r: Result<seq<Push>>)
    requires Fits(recv, ShifterWidths(n)) && port < 3 && n < TWO_31
    ensures port == 2 ==> r == Success([])
    ensures port < 2 && !IsValid(recv[1]) ==> r == Success([Push(2, Floating(n))])
    ensures port < 2 && IsValid(recv[1]) ==>
      (r.Failure? <==> t == RotateLeft && RotateLeftFails(n, UValue(recv[1])))
    ensures port < 2 && r.Success? ==> |r.value| == 1 && r.value[0].port == 2 && |r.value[0].value| == n
  {
    if port == 2 then Success([])
    else if !IsValid(recv[1]) then Success([Push(2, Floating(n))])
    else
      match Shifted(t, recv[0], UValue(recv[1]))
      case Success(out) => Success([Push(2, out)])
      case Failure(e) => Failure(e)
  }

  /** Every Int width has a shift port of at most 31 bits, whose `value` is
      its unsigned reading. */
  lemma ShiftAmount(n: nat, shift: WireValue)
    requires n < TWO_31 && |shift| == ShiftBits(n) && IsValid(shift)
    ensures Value(shift) == Success(UValue(shift))
  {
    assert |shift| <= 31 by {
      if CeilLog2(n) >= 32 {
        Pow2Mono(31, CeilLog2(n) - 1);
        Pow2Values();
      }
    }
    ValueSmall(shift);
  }

  /** Rotating left fails exactly when the amount exceeds the width, except
      that a one-bit input never fails (every remainder by 1 is 0). */
  lemma RotateLeftFailsIff(n: nat, s: nat)
    ensures n >= 2 ==> (RotateLeftFails(n, s) <==> s > n)
    ensures n <= 1 ==> !RotateLeftFails(n, s)
  {
    if n >= 2 && s > n {
      var a := s - n;
      if a % n != 0 {
        assert RotateLeftIndex(0, s, n) < 0;
      } else {
        assert a >= n by {
          if a < n {
            DivModUnique(a, n, 0, a);
          }
        }
        DivModUnique(a - 1, n, a / n - 1, n - 1);
        assert RotateLeftIndex(1, s, n) < 0;
      }
    } else if n == 1 {
      forall i | 0 <= i < n
        ensures RotateLeftIndex(i, s, n) >= 0
      {
        assert Abs(i - s + n) % 1 == 0;
      }
    } else if n >= 2 {
      forall i | 0 <= i < n
        ensures RotateLeftIndex(i, s, n) >= 0
      {
        assert i - s + n >= 0;
      }
    }
  }

  /** Rotating right by s undoes rotating left by s, for s up to the width. */
  lemma RotateRoundTrip(v: WireValue, s: nat)
    requires s <= |v|
    ensures Shifted(RotateLeft, v, s).Success?
    ensures Shifted(RotateRight, Shifted(RotateLeft, v, s).value, s) == Success(v)
  {
    var n := |v|;
    RotateLeftFailsIff(n, s);
    var left := Shifted(RotateLeft, v, s).value;
    var back := Shifted(RotateRight, left, s).value;
    forall i | 0 <= i < n
      ensures back[i] == v[i]
    {
      var j := (i + s) % n;
      assert back[i] == left[j];
      RotateIndex(i, s, n);
      assert left[j] == v[RotateLeftIndex(j, s, n)];
    }
    assert back == v;
  }

  lemma RotateIndex(i: int, s: int, n: int)
    requires 0 <= i < n && 0 <= s <= n
    ensures RotateLeftIndex((i + s) % n, s, n) == i
  {
    if i + s < n {
      DivModUnique(i + s, n, 0, i + s);
      DivModUnique(i + n, n, 1, i);
    } else {
      DivModUnique(i + s, n, 1, i + s - n);
      DivModUnique(i, n, 0, i);
    }
  }

  /** A logical left shift by s <= n is a ZERO block under the low n - s
      bits: the reading is 2^s times the input modulo 2^(n-s). A larger
      amount clears every bit. */
  lemma LogicalLeftReading(v: WireValue, s: nat)
    ensures var out := Shifted(LogicalLeft, v, s).value;
      && (s <= |v| ==> out == Filled(s, ZERO) + v[..|v| - s])
      && (s <= |v| ==> UValue(out) == Pow2(s) * (UValue(v) % Pow2(|v| - s)))
      && (s > |v| ==> out == Filled(|v|, ZERO))
  {
    var n := |v|;
    var out := Shifted(LogicalLeft, v, s).value;
    if s <= n {
      assert out == Filled(s, ZERO) + v[..n - s];
      UValueAppend(Filled(s, ZERO), v[..n - s]);
      UValueFilled(s, ZERO);
      UValuePrefix(v, n - s);
    }
  }

  /** A logical right shift divides the unsigned reading by 2^s, for every
      amount. */
  lemma LogicalRightReading(v: WireValue, s: nat)
    ensures var out := Shifted(LogicalRight, v, s).value;
      && (s <= |v| ==> out == v[s..] + Filled(s, ZERO))
      && UValue(out) == UValue(v) / Pow2(s)
  {
    var n := |v|;
    var out := Shifted(LogicalRight, v, s).value;
    if s <= n {
      assert out == v[s..] + Filled(s, ZERO);
      UValueAppend(v[s..], Filled(s, ZERO));
      UValueFilled(s, ZERO);
      UValuePrefix(v, s);
    } else {
      assert out == Filled(n, ZERO);
      UValueFilled(n, ZERO);
      Pow2Mono(n, s);
      DivModUnique(UValue(v), Pow2(s), 0, UValue(v));
    }
  }

  /** An arithmetic right shift by s < n copies the sign bit into the top s
      bits, and divides the signed reading by 2^s, rounding down. An amount
      of n or more fills every bit with the sign bit. */
  lemma ArithmeticRightReading(v: WireValue, s: nat)
    requires |v| > 0 && Driven(v)
    ensures var out := Shifted(ArithmeticRight, v, s).value;
      && (s < |v| ==> out == v[s..] + Filled(s, v[|v| - 1]))
      && (s < |v| ==> SValue(out) == SValue(v) / Pow2(s))
      && (s >= |v| ==> out == Filled(|v|, v[|v| - 1]))
  {
    var n := |v|;
    var out := Shifted(ArithmeticRight, v, s).value;
    if s < n {
      var lo, hi := v[..s], v[s..];
      var top := v[n - 1];
      assert hi[|hi| - 1] == top;
      assert top == (if top == ONE then ONE else ZERO);
      forall i | 0 <= i < n
        ensures out[i] == (hi + Filled(s, top))[i]
      {
        if i < n - s {
          DivModUnique(i + s, n, 0, i + s);
        }
      }
      assert out == hi + Filled(s, top);
      SignFill(hi, s);
      assert v == lo + hi;
      SValueAppend(lo, hi);
      assert 0 <= UValue(lo) < Pow2(s);
      Floor(SValue(v), UValue(lo), Pow2(s), SValue(hi));
    }
  }

  lemma Floor(x: int, r: int, p: int, q: int)
    requires p > 0 && 0 <= r < p && x == r + p * q
    ensures x / p == q
  {
    DivModUnique(x, p, q, r);
  }

  /** Rotating right by s reads bit (i + s) mod n: with the rotation taken
      modulo the width, a right rotation by n is the identity. */
  lemma RotateRightByWidth(v: WireValue)
    requires |v| > 0
    ensures Shifted(RotateRight, v, |v|) == Success(v)
  {
    var n := |v|;
    var out := Shifted(RotateRight, v, n).value;
    forall i | 0 <= i < n
      ensures out[i] == v[i]
    {
      DivModUnique(i + n, n, 1, i);
    }
    assert out == v;
  }
}
