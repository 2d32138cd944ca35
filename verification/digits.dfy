/** Positional notation, shared by the hexadecimal display of a wire value,
    the integer property parser and the version parser.

    Digit sequences are most-significant first, as they are written. The
    character classes follow the ASCII part of `Character.digit` and
    `Integer.toString(value, radix)`. */
module Digits {
  import opened Wrappers

  function Pow(b: nat, k: nat): (r: nat)
    ensures b >= 1 ==> r >= 1
  {
    if k == 0 then 1 else b * Pow(b, k - 1)
  }

  /** The digits of u in the given base, without leading zeros ("0" for zero). */
  function DigitsOf(u: nat, base: nat): (ds: seq<nat>)
    requires base >= 2
    ensures |ds| >= 1
    ensures forall i | 0 <= i < |ds| :: ds[i] < base
    ensures u > 0 ==> ds[0] != 0
    decreases u
  {
    if u < base then [u]
    else
      DivFacts(u, base);
      DigitsOf(u / base, base) + [u % base]
  }

  /** Facts about one division step by a base of at least 2. */
  lemma DivFacts(u: nat, base: nat)
    requires base >= 2 && u >= base
    ensures u == (u / base) * base + u % base && 0 <= u % base < base
    ensures 1 <= u / base < u
  {
    var q, r := u / base, u % base;
    assert u == q * base + r;
    assert q >= 1;
    MulLeq(2, base, q);
    assert q * base >= 2 * q;
  }

  /** The number a digit sequence denotes. */
  function ValueOf(ds: seq<nat>, base: nat): nat
  {
    if |ds| == 0 then 0 else ValueOf(ds[..|ds| - 1], base) * base + ds[|ds| - 1]
  }

  /** Reading back the digits of u gives u. */
  lemma {:induction false} DigitsRoundTrip(u: nat, base: nat)
    requires base >= 2
    ensures ValueOf(DigitsOf(u, base), base) == u
    decreases u
  {
    if u >= base {
      var ds := DigitsOf(u, base);
      DivFacts(u, base);
      assert ds[..|ds| - 1] == DigitsOf(u / base, base);
      DigitsRoundTrip(u / base, base);
      assert ValueOf(ds, base) == ValueOf(DigitsOf(u / base, base), base) * base + u % base;
    }
  }

  /** A number below base^k needs at most k digits. */
  lemma {:induction false} DigitsLength(u: nat, base: nat, k: nat)
    requires base >= 2 && k >= 1 && u < Pow(base, k)
    ensures |DigitsOf(u, base)| <= k
    decreases u
  {
    if u >= base {
      DivFacts(u, base);
      var p := Pow(base, k - 1);
      assert Pow(base, k) == base * p;
      if k == 1 {
        assert false;
      }
      QuotientBelow(u, base, p);
      DigitsLength(u / base, base, k - 1);
    }
  }

  /** Below p * base, the quotient by base is below p. */
  lemma QuotientBelow(u: nat, base: nat, p: nat)
    requires base >= 2 && u >= base && u < base * p
    ensures u / base < p
  {
    DivFacts(u, base);
    if u / base >= p {
      MulLeq(p, u / base, base);
    }
  }

  lemma MulLeq(a: nat, b: nat, c: nat)
    requires a <= b
    ensures a * c <= b * c
  {
    assert b * c == a * c + (b - a) * c;
  }

  /** Leading zeros do not change the denoted number. */
  lemma {:induction false} LeadingZeros(k: nat, ds: seq<nat>, base: nat)
    ensures ValueOf(seq(k, _ => 0) + ds, base) == ValueOf(ds, base)
    decreases |ds|
  {
    var zs: seq<nat> := seq(k, _ => 0);
    if |ds| == 0 {
      assert zs + ds == zs;
      AllZeros(k, base);
    } else {
      assert (zs + ds)[..|zs + ds| - 1] == zs + ds[..|ds| - 1];
      LeadingZeros(k, ds[..|ds| - 1], base);
    }
  }

  lemma {:induction false} AllZeros(k: nat, base: nat)
    ensures ValueOf(seq(k, _ => 0), base) == 0
  {
    if k > 0 {
      var zs: seq<nat> := seq(k, _ => 0);
      assert zs[..k - 1] == seq(k - 1, _ => 0);
      AllZeros(k - 1, base);
    }
  }

  /** The character `Integer.toString` and `%X` use for a digit. */
  function DigitChar(d: nat, upper: bool): (c: char)
    requires d < 36
  {
    if d < 10 then (48 + d) as char
    else if upper then (55 + d) as char
    else (87 + d) as char
  }

  /** `Character.digit(c, base)` on ASCII: the digit value, or None. */
  function CharDigit(c: char, base: nat): (r: Option<nat>)
    ensures r.Some? ==> r.value < base
  {
    var d :=
      if '0' <= c <= '9' then c as int - 48
      else if 'a' <= c <= 'z' then c as int - 87
      else if 'A' <= c <= 'Z' then c as int - 55
      else 36;
    if 2 <= base <= 36 && d < base then Some(d) else None
  }

  lemma CharDigitRoundTrip(d: nat, base: nat, upper: bool)
    requires d < base <= 36 && base >= 2
    ensures CharDigit(DigitChar(d, upper), base) == Some(d)
  {
  }

  /** Writes a digit sequence as text. */
  function Render(ds: seq<nat>, base: nat, upper: bool): (s: string)
    requires base <= 36 && forall i | 0 <= i < |ds| :: ds[i] < base
    ensures |s| == |ds|
  {
    seq(|ds|, i requires 0 <= i < |ds| => DigitChar(ds[i], upper))
  }

  /** Reads a text as digits of the base: None when a character is not a digit. */
  function ParseDigits(s: string, base: nat): (r: Option<seq<nat>>)
    ensures r.Some? ==> |r.value| == |s| && forall i | 0 <= i < |s| :: r.value[i] < base
    ensures r.None? <==> exists i | 0 <= i < |s| :: CharDigit(s[i], base).None?
  {
    if forall i | 0 <= i < |s| :: CharDigit(s[i], base).Some? then
      Some(seq(|s|, i requires 0 <= i < |s| => CharDigit(s[i], base).value))
    else None
  }

  /** u written in the base, as `Integer.toString(u, base)` writes a non-negative number. */
  function ToText(u: nat, base: nat, upper: bool): (s: string)
    requires 2 <= base <= 36
    ensures |s| >= 1
  {
    Render(DigitsOf(u, base), base, upper)
  }

  /** Parsing the text of u gives back the digits of u. */
  lemma ParseToText(u: nat, base: nat, upper: bool)
    requires 2 <= base <= 36
    ensures ParseDigits(ToText(u, base, upper), base) == Some(DigitsOf(u, base))
  {
    var ds := DigitsOf(u, base);
    var s := ToText(u, base, upper);
    forall i | 0 <= i < |s|
      ensures CharDigit(s[i], base) == Some(ds[i])
    {
      CharDigitRoundTrip(ds[i], base, upper);
    }
    assert ParseDigits(s, base).value == ds;
  }

  /** `padStart(len, c)`: prefix copies of c up to the length len. */
  function PadStart(s: string, len: nat, c: char): (r: string)
    ensures |r| == if |s| >= len then |s| else len
    ensures r[|r| - |s|..] == s
    ensures forall i | 0 <= i < |r| - |s| :: r[i] == c
  {
    if |s| >= len then s else seq(len - |s|, _ => c) + s
  }
}
