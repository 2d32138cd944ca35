/** Integer facts the bit-vector model rests on: powers of two, the bits of a
    two's-complement integer, and the 32-bit wrap-around of Kotlin's `Int`.

    Dafny's `/` and `%` are Euclidean; for the positive divisors used here they
    are floor division and a non-negative remainder, which is exactly how the
    bits of a two's-complement integer are read off. */
module BitMath {

  function Pow2(n: nat): (r: nat)
    ensures r >= 1
  {
    if n == 0 then 1 else 2 * Pow2(n - 1)
  }

  const TWO_31: int := 0x8000_0000
  const TWO_32: int := 0x1_0000_0000
  const TWO_64: int := 0x1_0000_0000_0000_0000

  /** Bit k of the two's-complement integer v (sign bits continue forever). */
  predicate Bit(v: int, k: nat)
    decreases k
  {
    if k == 0 then v % 2 == 1 else Bit(v / 2, k - 1)
  }

  lemma {:induction false} BitOfZero(k: nat)
    ensures !Bit(0, k)
  {
    if k > 0 {
      BitOfZero(k - 1);
    }
  }

  /** The signed reading of a 32-bit pattern, as Kotlin's `Int` holds it. */
  function ToInt32(u: int): (r: int)
    requires 0 <= u < TWO_32
    ensures -TWO_31 <= r < TWO_31
    ensures r == u || r == u - TWO_32
  {
    if u < TWO_31 then u else u - TWO_32
  }

  /** The signed reading keeps the 32-bit pattern. */
  lemma ToInt32Mod(u: int)
    requires 0 <= u < TWO_32
    ensures ToInt32(u) % TWO_32 == u
  {
    if u < TWO_31 {
      DivModUnique(u, TWO_32, 0, u);
    } else {
      DivModUnique(u - TWO_32, TWO_32, -1, u);
    }
  }

  /** The 32-bit wrap-around of Kotlin `Int` arithmetic. */
  function Wrap32(x: int): (r: int)
    ensures -TWO_31 <= r < TWO_31
    ensures (x - r) % TWO_32 == 0
  {
    ToInt32(x % TWO_32)
  }

  /** Wrapping keeps the residue modulo 2^32, and leaves Int-range numbers alone. */
  lemma Wrap32Mod(x: int)
    ensures Wrap32(x) % TWO_32 == x % TWO_32
    ensures -TWO_31 <= x < TWO_31 ==> Wrap32(x) == x
  {
    var m := TWO_32;
    var t := x % m;
    if t < TWO_31 {
      DivModUnique(t, m, 0, t);
    } else {
      DivModUnique(t - m, m, -1, t);
    }
    if -TWO_31 <= x < TWO_31 {
      if x >= 0 {
        DivModUnique(x, m, 0, x);
      } else {
        DivModUnique(x, m, -1, x + m);
      }
    }
  }

  /** Residues modulo m carry through a difference. */
  lemma ModDifference(a: int, b: int, ua: int, ub: int, c: int, m: int)
    requires m > 0 && a % m == ua % m && b % m == ub % m
    ensures (a - b - c) % m == (ua - ub - c) % m
  {
    var k := (a / m - ua / m) - (b / m - ub / m);
    assert a == (a / m) * m + a % m && ua == (ua / m) * m + ua % m;
    assert b == (b / m) * m + b % m && ub == (ub / m) * m + ub % m;
    assert a - b - c == (ua - ub - c) + k * m;
    ModAddMultiple(a - b - c, ua - ub - c, k, m);
  }

  function Abs(a: int): nat
  {
    if a < 0 then -a else a
  }

  /** Truncating division and remainder, as Kotlin and Java define `/` and `%` on Int. */
  function TruncDiv(a: int, b: int): (q: int)
    requires b != 0
  {
    if (a >= 0) == (b > 0) then Abs(a) / Abs(b) else -(Abs(a) / Abs(b))
  }

  function TruncRem(a: int, b: int): int
    requires b != 0
  {
    var m := Abs(a) % Abs(b);
    if a >= 0 then m else -m
  }

  /** Truncating division satisfies the division identity; the remainder is
      smaller than the divisor and carries the dividend's sign. */
  lemma TruncDivision(a: int, b: int)
    requires b != 0
    ensures a == TruncDiv(a, b) * b + TruncRem(a, b)
    ensures Abs(TruncRem(a, b)) < Abs(b)
    ensures TruncRem(a, b) != 0 ==> (TruncRem(a, b) > 0) == (a > 0)
  {
    var x: int, d: int := Abs(a), Abs(b);
    var q: int, r: int := x / d, x % d;
    assert x == q * d + r && 0 <= r < d;
    if x == 0 {
      DivModUnique(x, d, 0, 0);
    }
    SignedDivision(a, b, x, d, q, r);
  }

  lemma SignedDivision(a: int, b: int, x: int, d: int, q: int, r: int)
    requires d > 0 && x == q * d + r
    requires x == Abs(a) && d == Abs(b)
    ensures a == (if (a >= 0) == (b > 0) then q else -q) * b + (if a >= 0 then r else -r)
  {
    if a >= 0 && b > 0 {
    } else if a >= 0 {
      NegTimesNeg(q, d);
    } else if b > 0 {
      NegTimes(q, d);
    } else {
      NegTimes(d, q);
    }
  }

  lemma Distribute(a: int, p: int, h: int)
    ensures 2 * (a + p * h) == 2 * a + (2 * p) * h
  {
  }

  /** Below p * p, the quotient by p is below p. */
  lemma QuotientBelow(x: int, p: int)
    requires p > 0 && 0 <= x < p * p
    ensures 0 <= x / p < p
  {
    assert x == (x / p) * p + x % p;
  }

  /** (p - 1) * (p - 1) + (p - 1) is below p * p. */
  lemma ProductBelow(a: int, b: int, c: int, p: int)
    requires 0 <= a < p && 0 <= b < p && 0 <= c < p
    ensures 0 <= a * b + c < p * p
  {
    var q := p - 1;
    MulMono(a, q, b);
    MulMono(b, q, q);
    assert q * b == b * q;
    SquareStep(q);
  }

  lemma MulMono(x: int, y: int, z: int)
    requires 0 <= x <= y && 0 <= z
    ensures x * z <= y * z
  {
    assert y * z == x * z + (y - x) * z;
  }

  lemma SquareStep(q: int)
    requires q >= 0
    ensures q * q + q < (q + 1) * (q + 1)
  {
    assert (q + 1) * (q + 1) == q * q + 2 * q + 1;
  }

  lemma NegTimes(x: int, y: int)
    ensures (-x) * y == -(x * y) && y * (-x) == -(x * y)
  {
  }

  lemma NegTimesNeg(x: int, y: int)
    ensures (-x) * (-y) == x * y
  {
  }

  lemma Pow2Add(a: nat, b: nat)
    ensures Pow2(a + b) == Pow2(a) * Pow2(b)
  {
    if a > 0 {
      Pow2Add(a - 1, b);
    }
  }

  lemma Pow2Mono(a: nat, b: nat)
    requires a <= b
    ensures Pow2(a) <= Pow2(b)
  {
    if a < b {
      Pow2Mono(a, b - 1);
    }
  }

  lemma Pow2Values()
    ensures Pow2(4) == 16 && Pow2(8) == 256 && Pow2(16) == 0x1_0000
    ensures Pow2(31) == TWO_31 && Pow2(32) == TWO_32 && Pow2(64) == TWO_64
  {
    assert Pow2(2) == 4;
    assert Pow2(4) == 16;
    Pow2Add(4, 4);
    Pow2Add(8, 8);
    Pow2Add(16, 15);
    Pow2Add(16, 16);
    Pow2Add(32, 32);
  }

  lemma MulAtLeast(d: int, m: int)
    requires d >= 1 && m > 0
    ensures d * m >= m
  {
    assert d * m == m + (d - 1) * m;
  }

  lemma MulBound(d: int, m: int)
    requires m > 0
    ensures d >= 1 ==> d * m >= m
    ensures d <= -1 ==> d * m <= -m
  {
    if d >= 1 {
      MulAtLeast(d, m);
    } else if d <= -1 {
      MulAtLeast(-d, m);
      assert d * m == -((-d) * m);
    }
  }

  /** Euclidean quotient and remainder are unique. */
  lemma DivModUnique(v: int, m: int, q: int, r: int)
    requires m > 0 && v == q * m + r && 0 <= r < m
    ensures v / m == q && v % m == r
  {
    var q', r' := v / m, v % m;
    assert q' * m + r' == q * m + r;
    MulBound(q - q', m);
    assert (q - q') * m == r' - r;
  }

  /** Adding a multiple of p does not change the residue modulo p. */
  lemma ModAddMultiple(a: int, b: int, k: int, p: int)
    requires p > 0 && a == b + k * p
    ensures a % p == b % p
  {
    var q, r := b / p, b % p;
    assert a == (q + k) * p + r;
    DivModUnique(a, p, q + k, r);
  }

  /** Splitting a residue modulo 2^(n+1) into its low bit and the rest. */
  lemma ModPow2Split(v: int, n: nat)
    ensures v % Pow2(n + 1) == v % 2 + 2 * ((v / 2) % Pow2(n))
    ensures (v % Pow2(n + 1)) % 2 == v % 2
    ensures (v % Pow2(n + 1)) / 2 == (v / 2) % Pow2(n)
  {
    var p := Pow2(n);
    var h, b := v / 2, v % 2;
    var x, rr := h / p, h % p;
    assert v == (x * 2) * p + (2 * rr + b);
    assert Pow2(n + 1) == 2 * p;
    assert v == x * Pow2(n + 1) + (2 * rr + b);
    DivModUnique(v, Pow2(n + 1), x, 2 * rr + b);
    DivModUnique(2 * rr + b, 2, rr, b);
  }

  /** The bits below m of v depend only on v modulo 2^m. */
  lemma {:induction false} BitOfMod(v: int, m: nat, i: nat)
    requires i < m
    decreases i
    ensures Bit(v % Pow2(m), i) == Bit(v, i)
  {
    ModPow2Split(v, m - 1);
    if i > 0 {
      BitOfMod(v / 2, m - 1, i - 1);
    }
  }

  /** Numbers congruent modulo 2^m are congruent modulo every smaller power of two. */
  lemma CongruentModPow2(a: int, b: int, n: nat, m: nat)
    requires n <= m && (a - b) % Pow2(m) == 0
    ensures a % Pow2(n) == b % Pow2(n)
  {
    var pn, pm, pr := Pow2(n), Pow2(m), Pow2(m - n);
    Pow2Add(n, m - n);
    assert pm == pn * pr;
    var k := (a - b) / pm;
    assert a - b == k * pm;
    assert k * (pn * pr) == (k * pr) * pn;
    ModAddMultiple(a, b, k * pr, pn);
  }

  /** Residues modulo a smaller power of two nest. */
  lemma ModModPow2(v: int, n: nat, m: nat)
    requires n <= m
    ensures (v % Pow2(m)) % Pow2(n) == v % Pow2(n)
  {
    var pm := Pow2(m);
    ModAddMultiple(v, v % pm, v / pm, pm);
    assert (v - v % pm) % pm == 0 by {
      DivModUnique(v - v % pm, pm, v / pm, 0);
    }
    CongruentModPow2(v, v % pm, n, m);
  }

  /** A value already in [0, 2^n) is its own residue. */
  lemma ModSmall(v: int, n: nat)
    requires 0 <= v < Pow2(n)
    ensures v % Pow2(n) == v
  {
    DivModUnique(v, Pow2(n), 0, v);
  }
}
