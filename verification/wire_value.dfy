/** The tri-state bit vector every wire carries (WireValue.kt).

    Bit 0 is the least significant bit and is stored first. A value's width
    is its length. The class is mutable in the source; here every operation
    returns a new value. */
module WireValues {
  import opened Wrappers
  import opened BitMath
  import Digits

  datatype State = ONE | ZERO | Z

  /** The character `toString` prints for a bit. */
  function Repr(s: State): char
  {
    match s
    case ONE => '1'
    case ZERO => '0'
    case Z => 'z'
  }

  /** `State.negate`: ONE and ZERO swap and Z stays floating. */
  function Negate(s: State): (r: State)
    ensures (r == Z) <==> (s == Z)
    ensures s != Z ==> r != s
  {
    match s
    case ONE => ZERO
    case ZERO => ONE
    case Z => Z
  }

  lemma NegateInvolution(s: State)
    ensures Negate(Negate(s)) == s
  {
  }

  type WireValue = seq<State>

  /** `WireValue(bitSize, state)`: every bit set to the same state. */
  function Filled(n: nat, s: State): (r: WireValue)
    ensures |r| == n
    ensures forall i | 0 <= i < n :: r[i] == s
  {
    seq(n, _ => s)
  }

  /** The default value of a width: every bit floating. */
  function Floating(n: nat): (r: WireValue)
    ensures |r| == n
    ensures forall i | 0 <= i < n :: r[i] == Z
  {
    Filled(n, Z)
  }

  /** `WireValue(value, newSize)`: the bits below the old width are kept and
      the new high bits are ZERO. */
  function Resize(v: WireValue, n: nat): (r: WireValue)
    ensures |r| == n
    ensures n <= |v| ==> r == v[..n]
    ensures n >= |v| ==> r[..|v|] == v && r[|v|..] == Filled(n - |v|, ZERO)
  {
    seq(n, i requires 0 <= i < n => if i < |v| then v[i] else ZERO)
  }

  /** Widening then narrowing back restores the value. */
  lemma ResizeRoundTrip(v: WireValue, n: nat)
    requires n >= |v|
    ensures Resize(Resize(v, n), |v|) == v
  {
  }

  /** A width as Kotlin's string concatenation prints it. */
  function WidthText(n: nat): string
  {
    Digits.ToText(n, 10, false)
  }

  /** The message `set(other)` throws on a width mismatch: the wanted width
      is the target's, the found one the other value's. */
  function SetSizeMessage(wanted: nat, found: nat): string
  {
    "Cannot set wire of different size bits. Wanted: " + WidthText(wanted) + ", Found: " + WidthText(found)
  }

  /** `set(other)`: copies the bits of a value of the same width; any other
      width is rejected. */
  function SetTo(target: WireValue, other: WireValue): (r: Result<WireValue>)
    ensures r.Success? <==> |other| == |target|
    ensures r.Success? ==> r.value == other
    ensures r.Failure? ==> r.error == IllegalArgument(SetSizeMessage(|target|, |other|))
  {
    if |other| == |target| then Success(other)
    else Failure(IllegalArgument(SetSizeMessage(|target|, |other|)))
  }

  /** Setting keeps the target's width and leaves it `equals` the other
      value; setting again overrides the first setting (the last write wins),
      and setting the value already held changes nothing. */
  lemma SetToLastWins(target: WireValue, a: WireValue, b: WireValue)
    requires SetTo(target, a).Success?
    ensures |SetTo(target, a).value| == |target|
    ensures Equals(SetTo(target, a).value, a)
    ensures SetTo(SetTo(target, a).value, b) == SetTo(target, b)
    ensures SetTo(a, a) == Success(a)
  {
  }

  // ----- merge -----

  /** The message `merge` throws on a width mismatch: the wanted width is
      the receiver's, the found one the argument's. */
  function MergeSizeMessage(wanted: nat, found: nat): string
  {
    "Different size wires detected: wanted " + WidthText(wanted) + ", found " + WidthText(found)
  }

  /** Two driven bits that disagree. */
  predicate Conflict(a: State, b: State)
  {
    a != Z && b != Z && a != b
  }

  /** No bit position holds a conflict. */
  predicate Compatible(a: WireValue, b: WireValue)
    requires |a| == |b|
  {
    forall i | 0 <= i < |a| :: !Conflict(a[i], b[i])
  }

  /** The merged bit when there is no conflict: Z yields to the other bit. */
  function MergeBit(a: State, b: State): State
  {
    if a == Z then b else a
  }

  /** The bit loop of `merge`, for equal widths. */
  function MergeBits(a: WireValue, b: WireValue): (r: Result<WireValue>)
    requires |a| == |b|
    ensures r.Success? <==> Compatible(a, b)
    ensures r.Failure? ==> r.error == ShortCircuit
    ensures r.Success? ==> |r.value| == |a|
    ensures r.Success? ==> forall i | 0 <= i < |a| :: r.value[i] == MergeBit(a[i], b[i])
    decreases |a|
  {
    if |a| == 0 then Success([])
    else if Conflict(a[0], b[0]) then Failure(ShortCircuit)
    else
      match MergeBits(a[1..], b[1..])
      case Success(rest) => Success([MergeBit(a[0], b[0])] + rest)
      case Failure(e) => Failure(e)
  }

  /** `merge`: a width mismatch is an IllegalArgumentException, checked first;
      two driven bits that differ are a short circuit; otherwise each bit is
      the driven one of the pair, or Z when neither is driven. */
  function Merge(a: WireValue, b: WireValue): (r: Result<WireValue>)
    ensures |a| != |b| ==> r == Failure(IllegalArgument(MergeSizeMessage(|a|, |b|)))
    ensures |a| == |b| && !Compatible(a, b) ==> r == Failure(ShortCircuit)
    ensures r.Success? <==> |a| == |b| && Compatible(a, b)
    ensures r.Success? ==> |r.value| == |a|
    ensures r.Success? ==> forall i | 0 <= i < |a| ::
      && (a[i] == Z ==> r.value[i] == b[i])
      && (b[i] == Z ==> r.value[i] == a[i])
      && (a[i] != Z ==> r.value[i] == a[i])
  {
    if |a| != |b| then Failure(IllegalArgument(MergeSizeMessage(|a|, |b|)))
    else MergeBits(a, b)
  }

  /** The all-Z value of the same width is an identity on both sides. */
  lemma MergeFloating(v: WireValue)
    ensures Merge(Floating(|v|), v) == Success(v)
    ensures Merge(v, Floating(|v|)) == Success(v)
  {
    var f := Floating(|v|);
    assert Compatible(f, v) && Compatible(v, f);
    assert Merge(f, v).value == v;
    assert Merge(v, f).value == v;
  }

  /** Merging is commutative, failures included. */
  lemma MergeCommutes(a: WireValue, b: WireValue)
    ensures Merge(a, b).Success? <==> Merge(b, a).Success?
    ensures Merge(a, b).Success? ==> Merge(a, b) == Merge(b, a)
  {
    if Merge(a, b).Success? {
      assert Merge(a, b).value == Merge(b, a).value;
    }
  }

  /** Merging a value with itself gives it back. */
  lemma MergeIdempotent(v: WireValue)
    ensures Merge(v, v) == Success(v)
  {
    assert Compatible(v, v);
    assert Merge(v, v).value == v;
  }

  // ----- integer conversion -----

  /** The weight of a bit in the unsigned reading. */
  function BitWeight(s: State): nat
  {
    if s == ONE then 1 else 0
  }

  /** Σ 2^i over the ONE bits. */
  function UValue(w: WireValue): (u: nat)
    ensures u < Pow2(|w|)
  {
    if |w| == 0 then 0 else BitWeight(w[0]) + 2 * UValue(w[1..])
  }

  /** `isValidValue`: some bits, none floating. */
  predicate IsValid(w: WireValue)
  {
    |w| > 0 && forall i | 0 <= i < |w| :: w[i] != Z
  }

  /** No bit floating (the width may be zero). */
  predicate Driven(w: WireValue)
  {
    forall i | 0 <= i < |w| :: w[i] != Z
  }

  /** The 32 bits of the Int the `value` getter builds: bit i of the value
      is ORed in at position i mod 32, since a Kotlin `Int` shift uses only
      the low five bits of its count. */
  function Folded(w: WireValue): (r: WireValue)
    ensures |r| == 32 && Driven(r)
    decreases |w|
  {
    if |w| <= 32 then seq(32, j requires 0 <= j < 32 => if j < |w| && w[j] == ONE then ONE else ZERO)
    else
      var rest := Folded(w[32..]);
      seq(32, j requires 0 <= j < 32 => if w[j] == ONE || rest[j] == ONE then ONE else ZERO)
  }

  /** The `value` getter: its check fails on any Z bit; otherwise the bits are
      ORed into a Kotlin Int, bit i at position i mod 32. Up to 32 bits
      nothing is folded and the Int holds the unsigned reading. */
  function Value(w: WireValue): (r: Result<int>)
    ensures r.Success? <==> Driven(w)
    ensures r.Failure? ==> r.error == IllegalState("Invalid value")
    ensures r.Success? ==> -TWO_31 <= r.value < TWO_31
    ensures r.Success? && |w| <= 32 ==> (r.value - UValue(w)) % TWO_32 == 0
  {
    if !Driven(w) then Failure(IllegalState("Invalid value"))
    else if |w| <= 32 then Success(ToInt32(UValue(w) % TWO_32))
    else
      Pow2Values();
      Success(ToInt32(UValue(Folded(w))))
  }

  /** Up to 32 bits nothing is folded: the Int's bits are the value's bits,
      ZERO above. */
  lemma FoldedSmall(w: WireValue)
    requires Driven(w) && |w| <= 32
    ensures Folded(w) == w + Filled(32 - |w|, ZERO)
    ensures UValue(Folded(w)) == UValue(w)
  {
    var pad := Filled(32 - |w|, ZERO);
    FoldedPad(w);
    UValueAppend(w, pad);
    UValueFilled(32 - |w|, ZERO);
    var p := Pow2(|w|);
    assert UValue(w + pad) == UValue(w) + p * 0;
  }

  lemma FoldedPad(w: WireValue)
    requires Driven(w) && |w| <= 32
    ensures Folded(w) == w + Filled(32 - |w|, ZERO)
  {
    var f := Folded(w);
    var g := w + Filled(32 - |w|, ZERO);
    forall j | 0 <= j < 32
      ensures f[j] == g[j]
    {
      assert f[j] == if j < |w| && w[j] == ONE then ONE else ZERO;
      if j < |w| {
        assert g[j] == w[j] && w[j] != Z;
      } else {
        assert g[j] == ZERO;
      }
    }
    assert |f| == |g|;
  }

  /** The getter's Int, taken as 32 unsigned bits, is the folded pattern. */
  lemma ValueFolded(w: WireValue)
    requires Driven(w)
    ensures Value(w).value % TWO_32 == UValue(Folded(w))
  {
    Pow2Values();
    var u := UValue(Folded(w));
    if |w| <= 32 {
      FoldedSmall(w);
      UnsignedBelow(w);
      assert Value(w).value == ToInt32(u);
    } else {
      assert Value(w).value == ToInt32(u);
    }
    ToInt32Mod(u);
  }

  /** Bit j of the Int is ONE exactly when some bit of the value at a
      position congruent to j modulo 32 is ONE. */
  lemma {:induction false} FoldedBits(w: WireValue, j: nat)
    requires j < 32
    ensures Folded(w)[j] == ONE <==> exists i | 0 <= i < |w| && i % 32 == j :: w[i] == ONE
    decreases |w|
  {
    if |w| > 32 {
      FoldedBits(w[32..], j);
      if exists i | 0 <= i < |w| && i % 32 == j :: w[i] == ONE {
        var i :| 0 <= i < |w| && i % 32 == j && w[i] == ONE;
        if i >= 32 {
          assert w[32..][i - 32] == ONE && (i - 32) % 32 == j;
        }
      }
      if Folded(w[32..])[j] == ONE {
        var i :| 0 <= i < |w[32..]| && i % 32 == j && w[32..][i] == ONE;
        assert w[i + 32] == ONE && (i + 32) % 32 == j;
      }
    }
  }

  /** What the getter returns, bit by bit: bit j of the Int (taken as 32
      unsigned bits) is set exactly when a bit at a position congruent to j
      modulo 32 is ONE. */
  lemma ValueBits(w: WireValue, j: nat)
    requires Driven(w) && j < 32
    ensures Bit(Value(w).value % TWO_32, j) <==> exists i | 0 <= i < |w| && i % 32 == j :: w[i] == ONE
  {
    ValueFolded(w);
    BitOfUValue(Folded(w), j);
    FoldedBits(w, j);
  }

  /** Above 32 bits the getter is not the unsigned reading modulo 2^32: a
      33-bit value whose only ONE is bit 32 reads as 1, not 0. */
  lemma ValueFolds33()
    ensures Value(Filled(32, ZERO) + [ONE]) == Success(1)
    ensures UValue(Filled(32, ZERO) + [ONE]) % TWO_32 == 0
  {
    var w := Filled(32, ZERO) + [ONE];
    assert Driven(w);
    FoldedLowZero(w);
    FoldedSmall([ONE]);
    assert UValue([ONE]) == 1;
    assert Value(w) == Success(ToInt32(UValue(Folded(w))));
    UValueAppend(Filled(32, ZERO), [ONE]);
    UValueFilled(32, ZERO);
    Pow2Values();
  }

  /** Low 32 bits all ZERO contribute nothing to the fold. */
  lemma FoldedLowZero(w: WireValue)
    requires |w| > 32 && forall j | 0 <= j < 32 :: w[j] == ZERO
    ensures Folded(w) == Folded(w[32..])
  {
    var f, rest := Folded(w), Folded(w[32..]);
    forall j | 0 <= j < 32
      ensures f[j] == rest[j]
    {
      assert w[j] == ZERO;
      assert rest[j] != Z;
    }
  }



  /** A valid value is exactly a non-empty value whose `value` getter succeeds. */
  lemma ValidIffValue(w: WireValue)
    ensures IsValid(w) <==> |w| > 0 && Value(w).Success?
  {
  }

  /** The value of a valid value of at most 31 bits is its unsigned reading. */
  lemma ValueSmall(w: WireValue)
    requires Driven(w) && |w| < 32
    ensures Value(w) == Success(UValue(w))
  {
    Pow2Mono(|w|, 31);
    Pow2Values();
    ModSmall(UValue(w), 32);
  }

  /** `of(value, bitSize)`: bit i is ONE exactly when bit i of the Long is set
      (Kotlin's `1L shl i` uses i mod 64). */
  function Of(v: int, n: nat): (r: WireValue)
    ensures |r| == n && Driven(r)
  {
    seq(n, i requires 0 <= i < n => if Bit(v, i % 64) then ONE else ZERO)
  }

  /** The bits of v with no shift wrap-around. */
  function BitsOf(v: int, n: nat): (r: WireValue)
    ensures |r| == n
  {
    seq(n, i requires 0 <= i < n => if Bit(v, i) then ONE else ZERO)
  }

  lemma OfBelow64(v: int, n: nat)
    requires n <= 64
    ensures Of(v, n) == BitsOf(v, n)
  {
  }

  lemma {:induction false} UValueBitsOf(v: int, n: nat)
    ensures UValue(BitsOf(v, n)) == v % Pow2(n)
    decreases n
  {
    if n > 0 {
      var w := BitsOf(v, n);
      assert w[1..] == BitsOf(v / 2, n - 1);
      UValueBitsOf(v / 2, n - 1);
      ModPow2Split(v, n - 1);
    }
  }

  /** `of(0, n)` is all ZERO and `of(1, 1)` is a single ONE. */
  lemma OfSmall(n: nat)
    ensures Of(0, n) == Filled(n, ZERO)
    ensures Of(1, 1) == [ONE]
  {
    forall i | 0 <= i < n
      ensures Of(0, n)[i] == ZERO
    {
      BitOfZero(i % 64);
    }
  }

  /** The unsigned reading of `of(v, n)` is v mod 2^n. */
  lemma OfUValue(v: int, n: nat)
    requires n <= 64
    ensures UValue(Of(v, n)) == v % Pow2(n)
  {
    OfBelow64(v, n);
    UValueBitsOf(v, n);
  }

  /** `of(v, n).value == v mod 2^n` for widths below 32. */
  lemma OfValue(v: int, n: nat)
    requires n < 32
    ensures Value(Of(v, n)) == Success(v % Pow2(n))
  {
    OfUValue(v, n);
    ValueSmall(Of(v, n));
  }

  /** Converting a driven value to its number and back gives it back. */
  lemma {:induction false} BitsOfUValue(w: WireValue)
    requires Driven(w)
    ensures BitsOf(UValue(w), |w|) == w
  {
    if |w| > 0 {
      var u, t := UValue(w), UValue(w[1..]);
      DivModUnique(u, 2, t, BitWeight(w[0]));
      BitsOfUValue(w[1..]);
      var b := BitsOf(u, |w|);
      forall i | 0 <= i < |w|
        ensures b[i] == w[i]
      {
        if i > 0 {
          assert b[i] == BitsOf(t, |w| - 1)[i - 1];
        }
      }
    }
  }

  lemma OfUValueRoundTrip(w: WireValue)
    requires Driven(w) && |w| <= 64
    ensures Of(UValue(w), |w|) == w
  {
    OfBelow64(UValue(w), |w|);
    BitsOfUValue(w);
  }

  /** Two's-complement bits below 32 are the same for congruent numbers. */
  lemma OfCongruent(a: int, b: int, n: nat)
    requires n <= 32 && a % TWO_32 == b % TWO_32
    ensures Of(a, n) == Of(b, n)
  {
    Pow2Values();
    forall i | 0 <= i < n
      ensures Bit(a, i) == Bit(b, i)
    {
      BitOfMod(a, 32, i);
      BitOfMod(b, 32, i);
    }
  }

  // ----- the unsigned reading of pieces -----

  /** The unsigned reading of a concatenation: the high part is weighted by
      2 to the width of the low part. */
  lemma {:induction false} UValueAppend(lo: WireValue, hi: WireValue)
    ensures UValue(lo + hi) == UValue(lo) + Pow2(|lo|) * UValue(hi)
    decreases |lo|
  {
    if |lo| > 0 {
      var rest := lo[1..] + hi;
      assert (lo + hi)[1..] == rest && (lo + hi)[0] == lo[0];
      UValueAppend(lo[1..], hi);
      AppendStep(BitWeight(lo[0]), UValue(lo[1..]), UValue(hi), Pow2(|lo| - 1),
        UValue(lo + hi), UValue(rest), UValue(lo), Pow2(|lo|));
    } else {
      assert lo + hi == hi;
    }
  }

  /** The arithmetic of one step of `UValueAppend`. */
  lemma AppendStep(a0: int, ul: int, uh: int, p: int, total: int, rest: int, ulo: int, pw: int)
    requires total == a0 + 2 * rest && rest == ul + p * uh
    requires ulo == a0 + 2 * ul && pw == 2 * p
    ensures total == ulo + pw * uh
  {
    Distribute(ul, p, uh);
  }

  /** ZERO bits above a value do not change its unsigned reading. */
  lemma UValueZeroPadded(w: WireValue, k: nat)
    ensures UValue(w + Filled(k, ZERO)) == UValue(w)
  {
    var pad := Filled(k, ZERO);
    UValueAppend(w, pad);
    UValueFilled(k, ZERO);
    var p := Pow2(|w|);
    assert UValue(w + pad) == UValue(w) + p * 0;
  }

  /** All ONE reads as 2^k - 1; all ZERO or all Z reads as 0. */
  lemma {:induction false} UValueFilled(k: nat, s: State)
    ensures UValue(Filled(k, s)) == if s == ONE then Pow2(k) - 1 else 0
  {
    if k > 0 {
      assert Filled(k, s)[1..] == Filled(k - 1, s);
      UValueFilled(k - 1, s);
    }
  }

  /** For widths up to 32 the `value` getter agrees with the unsigned
      reading modulo 2^32, and is the unsigned reading modulo 2^32. */
  lemma ValueMod32(w: WireValue)
    requires Driven(w) && |w| <= 32
    ensures Value(w).value % TWO_32 == UValue(w) % TWO_32
    ensures Value(w).value % TWO_32 == UValue(w)
  {
    var m := TWO_32;
    var t := UValue(w) % m;
    var x := ToInt32(t);
    assert Value(w).value == x;
    if x == t {
      DivModUnique(x, m, 0, t);
    } else {
      DivModUnique(x, m, -1, t);
    }
    UnsignedBelow(w);
  }


  /** `of(x, n)` for n up to 32 reads back as y mod 2^n for any y agreeing
      with x modulo 2^32. */
  lemma OfUValueMod(x: int, y: int, n: nat)
    requires n <= 32 && x % TWO_32 == y % TWO_32
    ensures UValue(Of(x, n)) == y % Pow2(n)
  {
    OfCongruent(x, y, n);
    OfUValue(y, n);
  }

  /** The low k bits read as the reading modulo 2^k; the bits from k up read
      as the reading divided by 2^k. */
  lemma UValuePrefix(w: WireValue, k: nat)
    requires k <= |w|
    ensures UValue(w[..k]) == UValue(w) % Pow2(k)
    ensures UValue(w[k..]) == UValue(w) / Pow2(k)
  {
    var lo, hi := w[..k], w[k..];
    assert w == lo + hi;
    UValueAppend(lo, hi);
    var u, ul, uh, p := UValue(w), UValue(lo), UValue(hi), Pow2(k);
    assert UValue(lo + hi) == ul + Pow2(|lo|) * uh;
    assert u == UValue(lo + hi);
    assert Pow2(|lo|) == p;
    SwapProduct(u, ul, Pow2(|lo|), p, uh);
    DivModUnique(u, p, uh, ul);
  }

  lemma SwapProduct(u: int, ul: int, q: int, p: int, uh: int)
    requires u == ul + q * uh && q == p
    ensures u == uh * p + ul
  {
  }

  /** Two driven values of one width with the same reading are the same value. */
  lemma UValueInjective(a: WireValue, b: WireValue)
    requires Driven(a) && Driven(b) && |a| == |b| && UValue(a) == UValue(b)
    ensures a == b
  {
    BitsOfUValue(a);
    BitsOfUValue(b);
  }

  /** For widths up to 32 the `value` getter agrees with the unsigned reading
      modulo 2^width. */
  lemma ValueModWidth(w: WireValue)
    requires Driven(w) && |w| <= 32
    ensures Value(w).value % Pow2(|w|) == UValue(w)
  {
    ValueMod32(w);
    Pow2Values();
    ModModPow2(Value(w).value, |w|, 32);
    ModSmall(UValue(w), |w|);
  }

  /** A 32-bit `of` of an Int reads back as that Int. */
  lemma ValueOfInt(q: int)
    requires -TWO_31 <= q < TWO_31
    ensures Value(Of(q, 32)) == Success(q)
  {
    Pow2Values();
    OfUValue(q, 32);
    var u := UValue(Of(q, 32));
    assert u == q % TWO_32;
    ModSmall(u, 32);
    Wrap32Mod(q);
  }

  /** Bit i of a driven value's unsigned reading is set exactly when bit i is ONE. */
  lemma BitOfUValue(w: WireValue, i: nat)
    requires Driven(w) && i < |w|
    ensures Bit(UValue(w), i) <==> w[i] == ONE
  {
    BitsOfUValue(w);
    assert BitsOf(UValue(w), |w|)[i] == w[i];
  }

  // ----- text -----

  /** `toString`: one character per bit, most significant first. */
  function ToString(w: WireValue): (s: string)
    ensures |s| == |w|
  {
    seq(|w|, k requires 0 <= k < |w| => Repr(w[|w| - 1 - k]))
  }

  /** The bit a printed character stands for. */
  function ReadState(c: char): State
  {
    if c == '1' then ONE else if c == '0' then ZERO else Z
  }

  /** Reads back the text `toString` printed. */
  function FromString(s: string): (w: WireValue)
    ensures |w| == |s|
  {
    seq(|s|, i requires 0 <= i < |s| => ReadState(s[|s| - 1 - i]))
  }

  lemma ToStringRoundTrip(w: WireValue)
    ensures FromString(ToString(w)) == w
  {
    var s := ToString(w);
    forall i | 0 <= i < |w|
      ensures FromString(s)[i] == w[i]
    {
      assert s[|s| - 1 - i] == Repr(w[|w| - 1 - (|s| - 1 - i)]);
      assert ReadState(Repr(w[i])) == w[i];
    }
  }

  /** `hexString`: the getter's Int read as an unsigned 32-bit number
      (`toUInt`), in lower-case hexadecimal, zero-padded to 1 + (bitSize-1)/4
      digits; all 'z' when not valid. */
  function HexString(w: WireValue): (s: string)
  {
    var width := 1 + TruncDiv(|w| - 1, 4);
    if IsValid(w) then Digits.PadStart(Digits.ToText(Value(w).value % TWO_32, 16, false), width, '0')
    else seq(if width < 0 then 0 else width, _ => 'z')
  }

  /** The hexadecimal text of an invalid value is all 'z', one per nibble. */
  lemma HexStringInvalid(w: WireValue)
    requires !IsValid(w)
    ensures |HexString(w)| == (if |w| == 0 then 1 else 1 + (|w| - 1) / 4)
    ensures forall i | 0 <= i < |HexString(w)| :: HexString(w)[i] == 'z'
  {
  }

  /** At every width the hexadecimal text of a valid value has exactly
      1 + (bitSize-1)/4 digits and reads back as the getter's folded 32 bits;
      up to 32 bits that is the unsigned reading. */
  lemma HexStringValid(w: WireValue)
    requires IsValid(w)
    ensures |HexString(w)| == 1 + (|w| - 1) / 4
    ensures Digits.ParseDigits(HexString(w), 16).Some?
    ensures Digits.ValueOf(Digits.ParseDigits(HexString(w), 16).value, 16) == UValue(Folded(w))
    ensures |w| <= 32 ==> Digits.ValueOf(Digits.ParseDigits(HexString(w), 16).value, 16) == UValue(w)
  {
    var n := |w|;
    var k := 1 + (n - 1) / 4;
    var u := UValue(Folded(w));
    ValueFolded(w);
    assert HexString(w) == Digits.PadStart(Digits.ToText(u, 16, false), k, '0');
    FoldedBelow(w);
    HexWidth(u, n, k);
    PaddedHexRoundTrip(u, k);
    if n <= 32 {
      FoldedSmall(w);
    }
  }

  /** The folded 32 bits fit the value's own width, and never exceed 32 bits. */
  lemma FoldedBelow(w: WireValue)
    requires Driven(w)
    ensures UValue(Folded(w)) < Pow2(|w|)
  {
    if |w| <= 32 {
      FoldedSmall(w);
    } else {
      Pow2Mono(32, |w|);
    }
  }

  /** Above 32 bits the text is not the unsigned reading modulo 2^32: the
      33-bit value whose only ONE is bit 32 prints as 000000001. */
  lemma HexStringFolds33()
    ensures HexString(Filled(32, ZERO) + [ONE]) == "000000001"
  {
    var w := Filled(32, ZERO) + [ONE];
    ValueFolds33();
    assert IsValid(w);
    assert Value(w).value % TWO_32 == 1;
    assert Digits.ToText(1, 16, false) == "1";
    assert HexString(w) == Digits.PadStart("1", 9, '0');
  }

  lemma UnsignedBelow(w: WireValue)
    requires |w| <= 32
    ensures UValue(w) % TWO_32 == UValue(w)
  {
    Pow2Values();
    Pow2Mono(|w|, 32);
    ModSmall(UValue(w), 32);
  }

  lemma HexWidth(u: nat, n: nat, k: nat)
    requires n >= 1 && k == 1 + (n - 1) / 4 && u < Pow2(n)
    ensures |Digits.ToText(u, 16, false)| <= k
  {
    Pow2Mono(n, 4 * k);
    Pow16(k);
    Digits.DigitsLength(u, 16, k);
  }

  /** Zero-padded hexadecimal text reads back as the number it was made from. */
  lemma PaddedHexRoundTrip(u: nat, k: nat)
    requires |Digits.ToText(u, 16, false)| <= k
    ensures |Digits.PadStart(Digits.ToText(u, 16, false), k, '0')| == k
    ensures Digits.ParseDigits(Digits.PadStart(Digits.ToText(u, 16, false), k, '0'), 16).Some?
    ensures Digits.ValueOf(Digits.ParseDigits(Digits.PadStart(Digits.ToText(u, 16, false), k, '0'), 16).value, 16) == u
  {
    var text := Digits.ToText(u, 16, false);
    var h := Digits.PadStart(text, k, '0');
    var pad := k - |text|;
    Digits.ParseToText(u, 16, false);
    var ds := Digits.DigitsOf(u, 16);
    var zs: seq<nat> := seq(pad, _ => 0);
    forall i | 0 <= i < |h|
      ensures Digits.CharDigit(h[i], 16) == Some((zs + ds)[i])
    {
      if i >= pad {
        assert h[i] == text[i - pad];
        assert Digits.CharDigit(text[i - pad], 16) == Some(ds[i - pad]);
      }
    }
    assert Digits.ParseDigits(h, 16).value == zs + ds;
    Digits.LeadingZeros(pad, ds, 16);
    Digits.DigitsRoundTrip(u, 16);
  }

  lemma {:induction false} Pow16(k: nat)
    ensures Digits.Pow(16, k) == Pow2(4 * k)
  {
    if k > 0 {
      Pow16(k - 1);
      Pow2Add(4, 4 * (k - 1));
      Pow2Values();
    }
  }

  /** `equals`: same width and the same bit at every position. */
  predicate Equals(a: WireValue, b: WireValue)
  {
    |a| == |b| && forall i | 0 <= i < |a| :: a[i] == b[i]
  }

  lemma EqualsIsIdentity(a: WireValue, b: WireValue)
    ensures Equals(a, b) <==> a == b
  {
  }
}
