/** The multiplier and the divider (Multiplier.kt, Divider.kt).

    Every port of both is n bits wide. Events on the outputs are ignored;
    when an input is not a valid value both outputs float. */
module Multipliers {
  import opened BitMath
  import opened WireValues
  import opened Components

  /** Both outputs floating. */
  function FloatingPair(first: nat, n: nat): seq<Push>
  {
    [Push(first, Floating(n)), Push(first + 1, Floating(n))]
  }

  // ----- multiplier -----

  /** Ports A, B, carry-in, lower half, upper half, all n bits. */
  function MultiplierWidths(n: nat): seq<nat> { [n, n, n, n, n] }

  /** An Int zero-extended to an unsigned 32-bit Long: `toLong() and 0xFFFFFFFF`. */
  function Unsigned32(x: int): (r: int)
    ensures 0 <= r < TWO_32
  {
    x % TWO_32
  }

  /** `Multiplier.valueChanged`: the three inputs are zero-extended to
      unsigned 32-bit Longs and the product a * b + c is formed in 64 bits
      (it cannot exceed 2^64 - 2^32). The lower output is `of` the product
      narrowed to an Int; the upper output is `of` the product shifted right
      logically by n (Java masks a Long shift count to its low 6 bits) and
      narrowed to an Int. */
  function MultiplierChanged(n: nat, recv: Received, port: nat): (r: seq<Push>)
    requires Fits(recv, MultiplierWidths(n)) && port < 5
    ensures port >= 3 <==> r == []
    ensures r != [] ==> |r| == 2 && r[0].port == 3 && r[1].port == 4 && |r[0].value| == n && |r[1].value| == n
    ensures r != [] && !(IsValid(recv[0]) && IsValid(recv[1]) && IsValid(recv[2])) ==> r == FloatingPair(3, n)
  {
    if port >= 3 then []
    else if IsValid(recv[0]) && IsValid(recv[1]) && IsValid(recv[2]) then
      var a := Unsigned32(Value(recv[0]).value);
      var b := Unsigned32(Value(recv[1]).value);
      var c := Unsigned32(Value(recv[2]).value);
      var product := a * b + c;
      var upper := Wrap32(product / Pow2(n % 64));
      [Push(3, Of(Wrap32(product), n)), Push(4, Of(upper, n))]
    else FloatingPair(3, n)
  }

  /** For widths up to 32 the two outputs are the low and high halves of
      the exact product: lower + 2^n * upper == A * B + carry-in. */
  lemma MultiplierProduct(n: nat, recv: Received, port: nat)
    requires Fits(recv, MultiplierWidths(n)) && port < 3 && n <= 32
    requires IsValid(recv[0]) && IsValid(recv[1]) && IsValid(recv[2])
    ensures var r := MultiplierChanged(n, recv, port);
      UValue(r[0].value) + Pow2(n) * UValue(r[1].value) == UValue(recv[0]) * UValue(recv[1]) + UValue(recv[2])
  {
    MultiplierOutputs(n, recv, port);
    OutputHalves(n, recv, MultiplierChanged(n, recv, port));
  }

  /** The two outputs of a multiplier with valid inputs, as halves of the
      product of the unsigned input values. */
  lemma MultiplierOutputs(n: nat, recv: Received, port: nat)
    requires Fits(recv, MultiplierWidths(n)) && port < 3 && n <= 32
    requires IsValid(recv[0]) && IsValid(recv[1]) && IsValid(recv[2])
    ensures var r := MultiplierChanged(n, recv, port);
      var product := UValue(recv[0]) * UValue(recv[1]) + UValue(recv[2]);
      r[0].value == Of(Wrap32(product), n) && r[1].value == Of(Wrap32(product / Pow2(n)), n)
  {
    ValueMod32(recv[0]);
    ValueMod32(recv[1]);
    ValueMod32(recv[2]);
    assert n % 64 == n;
  }

  /** The halves of A * B + carry-in, for outputs already named. */
  lemma OutputHalves(n: nat, recv: Received, r: seq<Push>)
    requires Fits(recv, MultiplierWidths(n)) && n <= 32 && |r| == 2
    requires var product := UValue(recv[0]) * UValue(recv[1]) + UValue(recv[2]);
      r[0].value == Of(Wrap32(product), n) && r[1].value == Of(Wrap32(product / Pow2(n)), n)
    ensures UValue(r[0].value) + Pow2(n) * UValue(r[1].value) == UValue(recv[0]) * UValue(recv[1]) + UValue(recv[2])
  {
    var a, b, c := UValue(recv[0]), UValue(recv[1]), UValue(recv[2]);
    assert a < Pow2(n) && b < Pow2(n) && c < Pow2(n) by {
      assert |recv[0]| == n && |recv[1]| == n && |recv[2]| == n;
    }
    ProductBelow(a, b, c, Pow2(n));
    HalvesOf(a * b + c, r[0].value, r[1].value, n);
  }

  /** Halves, for outputs already named. */
  lemma HalvesOf(x: int, lo: WireValue, hi: WireValue, n: nat)
    requires n <= 32 && 0 <= x < Pow2(n) * Pow2(n)
    requires lo == Of(Wrap32(x), n) && hi == Of(Wrap32(x / Pow2(n)), n)
    ensures UValue(lo) + Pow2(n) * UValue(hi) == x
  {
    Halves(x, n);
  }

  /** `of` of the narrowed number and of its narrowed quotient by 2^n are
      the low and high halves of a number below 2^2n. */
  lemma Halves(x: int, n: nat)
    requires n <= 32 && 0 <= x < Pow2(n) * Pow2(n)
    ensures UValue(Of(Wrap32(x), n)) + Pow2(n) * UValue(Of(Wrap32(x / Pow2(n)), n)) == x
  {
    var p := Pow2(n);
    QuotientBelow(x, p);
    var q := x / p;
    assert UValue(Of(Wrap32(x), n)) == x % p by {
      Wrap32Mod(x);
      OfUValueMod(Wrap32(x), x, n);
    }
    assert UValue(Of(Wrap32(q), n)) == q by {
      Wrap32Mod(q);
      OfUValueMod(Wrap32(q), q, n);
      ModSmall(q, n);
    }
    DivSplit(x, p);
  }

  lemma DivSplit(x: int, p: int)
    requires p > 0
    ensures x % p + p * (x / p) == x
  {
  }

  // ----- divider -----

  /** Ports dividend, divisor, quotient, remainder, all n bits. */
  function DividerWidths(n: nat): seq<nat> { [n, n, n, n] }

  /** `Divider.valueChanged`: dividend and divisor are read as Kotlin Ints.
      A zero divisor gives the dividend as quotient and 0 as remainder;
      otherwise the quotient and remainder of truncating Int division (the
      quotient wraps for Int.MIN_VALUE / -1). */
  function DividerChanged(n: nat, recv: Received, port: nat): (r: seq<Push>)
    requires Fits(recv, DividerWidths(n)) && port < 4
    ensures port >= 2 <==> r == []
    ensures r != [] ==> |r| == 2 && r[0].port == 2 && r[1].port == 3 && |r[0].value| == n && |r[1].value| == n
    ensures r != [] && !(IsValid(recv[0]) && IsValid(recv[1])) ==> r == FloatingPair(2, n)
  {
    if port >= 2 then []
    else if IsValid(recv[0]) && IsValid(recv[1]) then
      var a := Value(recv[0]).value;
      var b := Value(recv[1]).value;
      var q := if b == 0 then a else Wrap32(TruncDiv(a, b));
      var rem := if b == 0 then 0 else TruncRem(a, b);
      [Push(2, Of(q, n)), Push(3, Of(rem, n))]
    else FloatingPair(2, n)
  }

  /** A zero divisor passes the dividend through and gives a zero remainder. */
  lemma DividerByZero(n: nat, recv: Received, port: nat)
    requires Fits(recv, DividerWidths(n)) && port < 2 && n <= 32
    requires IsValid(recv[0]) && IsValid(recv[1]) && UValue(recv[1]) == 0
    ensures DividerChanged(n, recv, port) == [Push(2, recv[0]), Push(3, Filled(n, ZERO))]
  {
    ValueMod32(recv[1]);
    var b := Value(recv[1]).value;
    assert b == 0 by {
      assert b % TWO_32 == 0;
    }
    var a := Value(recv[0]).value;
    ValueMod32(recv[0]);
    OfCongruent(a, UValue(recv[0]), n);
    OfUValueRoundTrip(recv[0]);
    OfSmall(n);
    assert Of(a, n) == recv[0];
  }

  /** Below 32 bits the operands are non-negative Ints, so the divider is
      unsigned division: quotient and remainder satisfy
      A == Q * B + R with R < B. */
  lemma DividerUnsigned(n: nat, recv: Received, port: nat)
    requires Fits(recv, DividerWidths(n)) && port < 2 && n < 32
    requires IsValid(recv[0]) && IsValid(recv[1]) && UValue(recv[1]) != 0
    ensures var r := DividerChanged(n, recv, port);
      && UValue(r[0].value) == UValue(recv[0]) / UValue(recv[1])
      && UValue(r[1].value) == UValue(recv[0]) % UValue(recv[1])
      && UValue(recv[0]) == UValue(r[0].value) * UValue(recv[1]) + UValue(r[1].value)
  {
    var ua, ub := UValue(recv[0]), UValue(recv[1]);
    assert Value(recv[0]).value == ua && Value(recv[1]).value == ub by {
      ValueSmall(recv[0]);
      ValueSmall(recv[1]);
    }
    UnsignedDivision(ua, ub, n);
    var r := DividerChanged(n, recv, port);
    assert r[0].value == Of(ua / ub, n) && r[1].value == Of(ua % ub, n);
    OfUValue(ua / ub, n);
    OfUValue(ua % ub, n);
    ModSmall(ua / ub, n);
    ModSmall(ua % ub, n);
  }

  /** Truncating Int division of two non-negative numbers below 2^n (n < 32)
      is Euclidean division, and nothing wraps. */
  lemma UnsignedDivision(ua: int, ub: int, n: nat)
    requires n < 32 && 0 <= ua < Pow2(n) && 0 < ub < Pow2(n)
    ensures TruncDiv(ua, ub) == ua / ub && TruncRem(ua, ub) == ua % ub
    ensures Wrap32(ua / ub) == ua / ub
    ensures 0 <= ua / ub < Pow2(n) && 0 <= ua % ub < Pow2(n)
    ensures ua == (ua / ub) * ub + ua % ub
  {
    assert Pow2(n) <= TWO_31 by {
      Pow2Mono(n, 31);
      Pow2Values();
    }
    DivBelow(ua, ub);
    Wrap32Mod(ua / ub);
  }

  /** Euclidean division of a natural number by a positive one. */
  lemma DivBelow(x: int, d: int)
    requires x >= 0 && d >= 1
    ensures 0 <= x / d <= x && 0 <= x % d < d && x == (x / d) * d + x % d
  {
    var q := x / d;
    assert x == q * d + x % d;
    if q > x {
      MulAtLeast(d, q);
    }
  }

  /** At 32 bits the outputs read back, through the `value` getter, as the
      truncating quotient and remainder of the signed operands: the
      division identity holds and the remainder takes the dividend's sign,
      except that Int.MIN_VALUE / -1 wraps back to Int.MIN_VALUE. */
  lemma DividerSigned(recv: Received, port: nat)
    requires Fits(recv, DividerWidths(32)) && port < 2
    requires IsValid(recv[0]) && IsValid(recv[1]) && Value(recv[1]).value != 0
    ensures var r := DividerChanged(32, recv, port);
      var a, b := Value(recv[0]).value, Value(recv[1]).value;
      && Value(r[1].value).Success? && Value(r[0].value).Success?
      && (a == -TWO_31 && b == -1 ==> Value(r[0].value).value == a && Value(r[1].value).value == 0)
      && (!(a == -TWO_31 && b == -1) ==>
            && a == Value(r[0].value).value * b + Value(r[1].value).value
            && Abs(Value(r[1].value).value) < Abs(b)
            && (Value(r[1].value).value != 0 ==> (Value(r[1].value).value > 0) == (a > 0)))
  {
    var a, b := Value(recv[0]).value, Value(recv[1]).value;
    TruncDivision(a, b);
    var q, rem := TruncDiv(a, b), TruncRem(a, b);
    assert -TWO_31 <= rem < TWO_31;
    ValueOfInt(rem);
    if a == -TWO_31 && b == -1 {
      assert q == TWO_31;
      Wrap32Mod(q);
      assert Wrap32(q) == -TWO_31 by {
        assert q % TWO_32 == TWO_31;
      }
      ValueOfInt(-TWO_31);
    } else {
      QuotientInRange(a, b);
      Wrap32Mod(q);
      ValueOfInt(q);
    }
  }

  /** A truncated Int quotient fits an Int, except for Int.MIN_VALUE / -1. */
  lemma QuotientInRange(a: int, b: int)
    requires -TWO_31 <= a < TWO_31 && -TWO_31 <= b < TWO_31 && b != 0
    requires !(a == -TWO_31 && b == -1)
    ensures -TWO_31 <= TruncDiv(a, b) < TWO_31
  {
    var x, d := Abs(a), Abs(b);
    assert x / d <= x by {
      assert x == (x / d) * d + x % d;
      if x / d > x {
        MulAtLeast(d, x / d);
      }
    }
    if d == 1 {
      assert x / d == x;
    } else {
      assert x / d < TWO_31 by {
        assert x == (x / d) * d + x % d;
      }
    }
  }
}
