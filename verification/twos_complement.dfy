/** The components that read a value as a two's-complement number: the
    negator (Negator.kt), the comparator (Comparator.kt) and the bit
    extender (BitExtender.kt). */
module TwosComplement {
  import opened Wrappers
  import opened BitMath
  import opened WireValues
  import opened Components

  /** The two's-complement reading of a non-empty value: the top bit
      weighs -2^(n-1) instead of 2^(n-1). */
  function SValue(w: WireValue): int
    requires |w| > 0
  {
    UValue(w) - (if w[|w| - 1] == ONE then Pow2(|w|) else 0)
  }

  /** The reading split at the top bit; the signed reading lies in
      [-2^(n-1), 2^(n-1)). */
  lemma TopSplit(w: WireValue)
    requires |w| > 0
    ensures UValue(w) == UValue(w[..|w| - 1]) + Pow2(|w| - 1) * BitWeight(w[|w| - 1])
    ensures SValue(w) == UValue(w[..|w| - 1]) - (if w[|w| - 1] == ONE then Pow2(|w| - 1) else 0)
    ensures -(Pow2(|w| - 1) as int) <= SValue(w) < Pow2(|w| - 1)
  {
    var n := |w|;
    var lo, top := w[..n - 1], [w[n - 1]];
    assert w == lo + top;
    UValueAppend(lo, top);
    assert UValue(top) == BitWeight(w[n - 1]) by {
      assert top[1..] == [];
    }
    TopArithmetic(UValue(w), UValue(lo), Pow2(n - 1), Pow2(n), w[n - 1] == ONE, BitWeight(w[n - 1]));
  }

  /** The arithmetic of `TopSplit`: a reading below p plus the top bit's
      weight p, less 2p when the top bit is set. */
  lemma TopArithmetic(u: int, ul: int, p: int, pw: int, top: bool, bit: int)
    requires 0 <= ul < p && pw == 2 * p && u == ul + p * bit
    requires bit == (if top then 1 else 0)
    ensures u - (if top then pw else 0) == ul - (if top then p else 0)
    ensures -p <= u - (if top then pw else 0) < p
  {
  }

  /** Putting low bits under a value scales its signed reading and adds
      their unsigned reading. */
  lemma SValueAppend(lo: WireValue, hi: WireValue)
    requires |hi| > 0
    ensures SValue(lo + hi) == UValue(lo) + Pow2(|lo|) * SValue(hi)
  {
    var top := hi[|hi| - 1] == ONE;
    UValueAppend(lo, hi);
    SValueTop(lo, hi);
    SubProduct(top, UValue(lo + hi), UValue(lo), Pow2(|lo|), UValue(hi), Pow2(|hi|), SValue(hi), SValue(lo + hi));
  }

  lemma SValueTop(lo: WireValue, hi: WireValue)
    requires |hi| > 0
    ensures SValue(lo + hi) == UValue(lo + hi) - (if hi[|hi| - 1] == ONE then Pow2(|lo|) * Pow2(|hi|) else 0)
  {
    var w := lo + hi;
    assert |w| == |lo| + |hi| && w[|w| - 1] == hi[|hi| - 1];
    Pow2Add(|lo|, |hi|);
  }

  lemma SubProduct(top: bool, total: int, ul: int, p: int, uh: int, h: int, sh: int, sw: int)
    requires total == ul + p * uh
    requires sh == uh - (if top then h else 0)
    requires sw == total - (if top then p * h else 0)
    ensures sw == ul + p * sh
  {
  }

  /** Copying the sign into new high bits keeps the signed reading. */
  lemma SignFill(w: WireValue, k: nat)
    requires |w| > 0
    ensures SValue(w + Filled(k, if w[|w| - 1] == ONE then ONE else ZERO)) == SValue(w)
  {
    var top := w[|w| - 1];
    var fill := Filled(k, if top == ONE then ONE else ZERO);
    var out := w + fill;
    if k > 0 {
      assert out[|out| - 1] == (if top == ONE then ONE else ZERO);
      UValueAppend(w, fill);
      UValueFilled(k, if top == ONE then ONE else ZERO);
      if top == ONE {
        Pow2Add(|w|, k);
        OneFill(UValue(out), UValue(w), Pow2(|w|), UValue(fill), Pow2(k), Pow2(|out|));
        assert SValue(out) == UValue(out) - Pow2(|out|);
        assert SValue(w) == UValue(w) - Pow2(|w|);
      } else {
        ZeroFill(UValue(out), UValue(w), Pow2(|w|), UValue(fill));
        assert SValue(out) == UValue(out);
        assert SValue(w) == UValue(w);
      }
    } else {
      assert out == w;
    }
  }

  /** A one-bit flag. */
  function Flag(b: bool): WireValue
  {
    [if b then ONE else ZERO]
  }

  // ----- negator -----

  /** `Negator.valueChanged`: an event on the input pushes `of(-value, n)`,
      the Int negated as a Long, or a floating value when the input is not
      valid. Events on the output are ignored. */
  function NegatorChanged(n: nat, port: nat, value: WireValue): (r: seq<Push>)
    requires port < 2 && (port == 0 ==> |value| == n)
    ensures port == 1 <==> r == []
    ensures r != [] ==> |r| == 1 && r[0].port == 1 && |r[0].value| == n
    ensures r != [] && !IsValid(value) ==> r[0].value == Floating(n)
    ensures r != [] && IsValid(value) ==> Driven(r[0].value)
  {
    if port == 1 then []
    else if IsValid(value) then [Push(1, Of(-Value(value).value, n))]
    else [Push(1, Floating(n))]
  }

  /** For widths up to 32 the output is the two's-complement negation of
      the input: its reading is -A modulo 2^n. */
  lemma NegatorNegates(n: nat, value: WireValue)
    requires |value| == n && n <= 32 && IsValid(value)
    ensures UValue(NegatorChanged(n, 0, value)[0].value) == (-(UValue(value) as int)) % Pow2(n)
  {
    NegatedReading(n, value);
  }

  /** `of(-value, n)` reads as minus the unsigned reading, modulo 2^n. */
  lemma NegatedReading(n: nat, value: WireValue)
    requires |value| == n && n <= 32 && IsValid(value)
    ensures UValue(Of(-Value(value).value, n)) == (-(UValue(value) as int)) % Pow2(n)
  {
    var v: int, u: int := Value(value).value, UValue(value);
    assert v % TWO_32 == u % TWO_32 by {
      ValueMod32(value);
    }
    OfNegated(v, u, n);
  }

  /** Negating twice gives the input back. */
  lemma NegatorInvolution(n: nat, value: WireValue)
    requires |value| == n && 1 <= n <= 32 && IsValid(value)
    ensures var once := NegatorChanged(n, 0, value)[0].value;
      IsValid(once) && NegatorChanged(n, 0, once)[0].value == value
  {
    var m: int, u: int := Pow2(n), UValue(value);
    var once := NegatorChanged(n, 0, value)[0].value;
    NegatorNegates(n, value);
    assert IsValid(once);
    var uo: int := UValue(once);
    assert uo == (-u) % m;
    var v2 := Value(once).value;
    ValueModWidth(once);
    ModSmall(uo, n);
    CongruentNeg(v2, uo, m);
    var back := NegatorChanged(n, 0, once)[0].value;
    assert back == Of(-v2, n);
    OfUValue(-v2, n);
    assert UValue(back) == (-uo) % m;
    NegNegMod(u, m);
    UValueInjective(back, value);
  }

  lemma OfNegated(v: int, u: int, n: nat)
    requires n <= 32 && v % TWO_32 == u % TWO_32
    ensures UValue(Of(-v, n)) == (-u) % Pow2(n)
  {
    CongruentNeg(v, u, TWO_32);
    OfUValueMod(-v, -u, n);
  }

  /** Residues carry through negation. */
  lemma CongruentNeg(a: int, b: int, p: int)
    requires p > 0 && a % p == b % p
    ensures (-a) % p == (-b) % p
  {
    ModDifference(0, a, 0, b, 0, p);
  }

  lemma NegNegMod(u: int, m: int)
    requires m > 0 && 0 <= u < m
    ensures (-((-u) % m)) % m == u
  {
    if u != 0 {
      var a := (-u) % m;
      DivModUnique(-u, m, -1, m - u);
      assert a == m - u;
      DivModUnique(-a, m, -1, u);
    }
  }

  // ----- comparator -----

  /** Ports A, B and the three one-bit flags LT, EQ, GT. */
  function ComparatorWidths(n: nat): seq<nat> { [n, n, 1, 1, 1] }

  /** How the comparator widens an Int input to a Long. Unsigned: the low 32
      bits. Signed: when bit n-1 is set the value is ORed with `-1L shl n`,
      which keeps the low n bits and sets every bit above them, giving
      (x mod 2^n) - 2^n. Long shift counts are taken modulo 64. */
  function Widened(n: nat, signed: bool, x: int): int
  {
    if !signed then x % TWO_32
    else if Bit(x, (n + 63) % 64) then x % Pow2(n % 64) - Pow2(n % 64)
    else x
  }

  /** `Comparator.valueChanged`, whatever port changed: with both inputs
      valid it pushes the three comparison flags of the widened inputs,
      otherwise all three flags float. */
  function ComparatorChanged(n: nat, signed: bool, recv: Received): (r: seq<Push>)
    requires Fits(recv, ComparatorWidths(n))
    ensures |r| == 3 && r[0].port == 2 && r[1].port == 3 && r[2].port == 4
    ensures !(IsValid(recv[0]) && IsValid(recv[1])) <==> r[0].value == r[1].value == r[2].value == Floating(1)
    ensures IsValid(recv[0]) && IsValid(recv[1]) ==>
      |set i | 0 <= i < 3 && r[i].value == [ONE]| == 1
  {
    if IsValid(recv[0]) && IsValid(recv[1]) then
      var a := Widened(n, signed, Value(recv[0]).value);
      var b := Widened(n, signed, Value(recv[1]).value);
      var r := [Push(2, Flag(a < b)), Push(3, Flag(a == b)), Push(4, Flag(a > b))];
      assert (set i | 0 <= i < 3 && r[i].value == [ONE]) == (if a < b then {0} else if a == b then {1} else {2});
      r
    else
      [Push(2, Floating(1)), Push(3, Floating(1)), Push(4, Floating(1))]
  }

  /** For widths 1 to 32 the signed widening is the two's-complement reading. */
  lemma WidenedSigned(w: WireValue)
    requires 1 <= |w| <= 32 && Driven(w)
    ensures Widened(|w|, true, Value(w).value) == SValue(w)
  {
    var n := |w|;
    assert (n + 63) % 64 == n - 1 && n % 64 == n;
    TopBitOfValue(w);
    TopSplit(w);
    if w[n - 1] == ONE {
      ValueModWidth(w);
    } else {
      ValueUnsigned(w);
    }
  }

  /** Bit n-1 of the `value` of an n-bit value is its top bit. */
  lemma TopBitOfValue(w: WireValue)
    requires 1 <= |w| <= 32 && Driven(w)
    ensures Bit(Value(w).value, |w| - 1) <==> w[|w| - 1] == ONE
  {
    Pow2Values();
    ValueMod32(w);
    BitOfMod(Value(w).value, 32, |w| - 1);
    BitOfUValue(w, |w| - 1);
  }

  /** With the top bit clear, `value` is the unsigned reading. */
  lemma ValueUnsigned(w: WireValue)
    requires 1 <= |w| <= 32 && Driven(w) && w[|w| - 1] != ONE
    ensures Value(w).value == UValue(w)
  {
    TopSplit(w);
    assert UValue(w) < TWO_31 by {
      Pow2Mono(|w| - 1, 31);
      Pow2Values();
    }
    UnsignedBelow(w);
  }

  /** For widths up to 32 the unsigned widening is the unsigned reading. */
  lemma WidenedUnsigned(w: WireValue)
    requires |w| <= 32 && Driven(w)
    ensures Widened(|w|, false, Value(w).value) == UValue(w)
  {
    ValueMod32(w);
  }

  /** For widths 1 to 32 the flags compare the two's-complement readings
      (signed) or the unsigned readings (unsigned) of A and B. */
  lemma ComparatorCompares(n: nat, signed: bool, recv: Received)
    requires Fits(recv, ComparatorWidths(n)) && 1 <= n <= 32
    requires IsValid(recv[0]) && IsValid(recv[1])
    ensures var a := if signed then SValue(recv[0]) else UValue(recv[0]);
      var b := if signed then SValue(recv[1]) else UValue(recv[1]);
      ComparatorChanged(n, signed, recv) == [Push(2, Flag(a < b)), Push(3, Flag(a == b)), Push(4, Flag(a > b))]
  {
    if signed {
      WidenedSigned(recv[0]);
      WidenedSigned(recv[1]);
    } else {
      WidenedUnsigned(recv[0]);
      WidenedUnsigned(recv[1]);
    }
  }

  // ----- bit extender -----

  /** `BitExtender.ExtensionType`. */
  datatype Extension = ZeroExtend | OneExtend | SignExtend

  /** `BitExtender.valueChanged`: an event on the input resizes the value to
      the output width (new high bits ZERO); when widening, the new bits
      become ONE for one-extension, and for sign-extension when the input's
      top bit is ONE. Reading the top bit of a zero-width input is an index
      error. Events on the output are ignored. */
  function ExtenderChanged(inSize: nat, outSize: nat, ext: Extension, port: nat, value: WireValue): (r: Result<seq<Push>>)
    requires port < 2 && (port == 0 ==> |value| == inSize)
    ensures r.Failure? <==> port == 0 && ext == SignExtend && inSize == 0 && outSize > 0
    ensures r.Failure? ==> r.error == IndexOutOfBounds
    ensures port == 1 ==> r == Success([])
    ensures port == 0 && r.Success? ==>
      && |r.value| == 1 && r.value[0].port == 1 && |r.value[0].value| == outSize
      && (outSize <= inSize ==> r.value[0].value == value[..outSize])
      && (outSize >= inSize ==> r.value[0].value[..inSize] == value)
  {
    if port == 1 then Success([])
    else
      var extended := Resize(value, outSize);
      if outSize <= inSize || ext == ZeroExtend then Success([Push(1, extended)])
      else if ext == OneExtend then Success([Push(1, value + Filled(outSize - inSize, ONE))])
      else if inSize == 0 then assert ext == SignExtend; Failure(IndexOutOfBounds)
      else if extended[inSize - 1] == ONE then Success([Push(1, value + Filled(outSize - inSize, ONE))])
      else Success([Push(1, extended)])
  }

  /** Narrowing keeps the low bits: the reading modulo 2^out. */
  lemma ExtenderTruncates(inSize: nat, outSize: nat, ext: Extension, value: WireValue)
    requires |value| == inSize && outSize <= inSize
    ensures UValue(ExtenderChanged(inSize, outSize, ext, 0, value).value[0].value) == UValue(value) % Pow2(outSize)
  {
    UValuePrefix(value, outSize);
  }

  /** Zero-extension keeps the unsigned reading. */
  lemma ExtenderZeroExtends(inSize: nat, outSize: nat, value: WireValue)
    requires |value| == inSize && outSize >= inSize
    ensures UValue(ExtenderChanged(inSize, outSize, ZeroExtend, 0, value).value[0].value) == UValue(value)
  {
    var out := ExtenderChanged(inSize, outSize, ZeroExtend, 0, value).value[0].value;
    assert out == Resize(value, outSize);
    ZeroPadKeeps(value, outSize, out);
  }

  /** Padding with ZERO bits keeps the unsigned reading. */
  lemma ZeroPadKeeps(value: WireValue, outSize: nat, out: WireValue)
    requires outSize >= |value| && out == Resize(value, outSize)
    ensures UValue(out) == UValue(value)
  {
    assert out == value + Filled(outSize - |value|, ZERO) by {
      assert out == out[..|value|] + out[|value|..];
    }
    UValueZeroPadded(value, outSize - |value|);
  }

  /** One-extension adds the ONE bits from the input width up to the output width. */
  lemma ExtenderOneExtends(inSize: nat, outSize: nat, value: WireValue)
    requires |value| == inSize && outSize >= inSize
    ensures UValue(ExtenderChanged(inSize, outSize, OneExtend, 0, value).value[0].value)
         == UValue(value) + Pow2(outSize) - Pow2(inSize)
  {
    var k := outSize - inSize;
    var fill := Filled(k, ONE);
    var out := ExtenderChanged(inSize, outSize, OneExtend, 0, value).value[0].value;
    assert out == value + fill by {
      if k == 0 {
        assert fill == [];
      }
    }
    UValueAppend(value, fill);
    UValueFilled(k, ONE);
    Pow2Add(inSize, k);
    OneFill(UValue(out), UValue(value), Pow2(inSize), UValue(fill), Pow2(k), Pow2(outSize));
  }

  lemma OneFill(total: int, u: int, p: int, f: int, q: int, pq: int)
    requires total == u + p * f && f == q - 1 && pq == p * q
    ensures total == u + pq - p
  {
  }

  /** Sign-extension keeps the two's-complement reading. */
  lemma ExtenderSignExtends(inSize: nat, outSize: nat, value: WireValue)
    requires |value| == inSize && 1 <= inSize <= outSize
    ensures var r := ExtenderChanged(inSize, outSize, SignExtend, 0, value);
      r.Success? && SValue(r.value[0].value) == SValue(value)
  {
    var k := outSize - inSize;
    var out := ExtenderChanged(inSize, outSize, SignExtend, 0, value).value[0].value;
    if k > 0 {
      assert out == value + Filled(k, if value[inSize - 1] == ONE then ONE else ZERO);
    } else {
      assert out == value + Filled(0, ZERO);
    }
    SignFill(value, k);
  }

  lemma ZeroFill(total: int, u: int, p: int, f: int)
    requires total == u + p * f && f == 0
    ensures total == u
  {
  }

  /** Narrowing a widened value back to the input width gives the input back. */
  lemma ExtenderRoundTrip(inSize: nat, outSize: nat, ext: Extension, value: WireValue)
    requires |value| == inSize && outSize >= inSize
    requires ExtenderChanged(inSize, outSize, ext, 0, value).Success?
    ensures var wide := ExtenderChanged(inSize, outSize, ext, 0, value).value[0].value;
      ExtenderChanged(outSize, inSize, ext, 0, wide) == Success([Push(1, value)])
  {
  }
}
