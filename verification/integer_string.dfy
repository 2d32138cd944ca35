/** `IntegerString` (IntegerString.java): an Int property typed as text,
    whose base is given by a prefix ("0x" or "x" hexadecimal, "0b" or "b"
    binary, "#" decimal) or else by the property's default base. */
module IntegerStrings {
  import opened Wrappers
  import opened BitMath
  import opened Digits

  datatype IntegerString = IntegerString(text: string, value: int, base: int)

  predicate StartsWith(s: string, p: string)
  {
    |p| <= |s| && s[..|p|] == p
  }

  /** The text of a signed number in a radix, as `Integer.toString(v, radix)`
      writes it: a minus sign, then the digits of the magnitude. */
  function SignedText(v: int, radix: nat): (s: string)
    requires 2 <= radix <= 36
  {
    if v < 0 then "-" + ToText(-v, radix, false) else ToText(v, radix, false)
  }

  /** How the constructor takes a text apart: whether it is negative (a
      leading '-', or one right after the prefix), the base, and the digits
      left for `Integer.parseUnsignedInt`. */
  datatype Split = Split(negative: bool, base: int, rest: string)

  function SplitText(s: string, defaultBase: int): (r: Split)
    ensures StartsWith(s, "-") ==> r.negative
  {
    var leading := StartsWith(s, "-");
    var stripped := StripPrefix(if leading then s[1..] else s, defaultBase);
    var u := stripped.1;
    var late := !leading && StartsWith(u, "-");
    Split(leading || late, stripped.0, if late then u[1..] else u)
  }

  /** The base a prefix selects, and the text after it. */
  function StripPrefix(t: string, defaultBase: int): (int, string)
  {
    if StartsWith(t, "0x") then (16, t[2..])
    else if StartsWith(t, "x") then (16, t[1..])
    else if StartsWith(t, "0b") then (2, t[2..])
    else if StartsWith(t, "b") then (2, t[1..])
    else if StartsWith(t, "#") then (10, t[1..])
    else (defaultBase, t)
  }

  /** `Integer.parseUnsignedInt(s, radix)` on ASCII text: an optional '+',
      then at least one digit of the radix, denoting a number below 2^32,
      returned as the Int with those 32 bits. */
  function ParseUnsignedInt(s: string, radix: int): (r: Option<int>)
    ensures r.Some? ==> -TWO_31 <= r.value < TWO_31
  {
    var ds := if StartsWith(s, "+") then s[1..] else s;
    if !(2 <= radix <= 36) || |ds| == 0 then None
    else
      match ParseDigits(ds, radix)
      case None => None
      case Some(digits) =>
        var u := ValueOf(digits, radix);
        if u < TWO_32 then Some(ToInt32(u)) else None
  }

  /** The base prefix the text keeps: one only when the base differs from the
      default, which turns "x" and "b" into "0x" and "0b". */
  function BasePrefix(base: int, defaultBase: int): string
  {
    if base == defaultBase then ""
    else if base == 2 then "0b"
    else if base == 10 then "#"
    else if base == 16 then "0x"
    else ""
  }

  /** The string constructor, as written. The value is the parsed number,
      negated (with Int wrap-around) when a '-' was seen. Digits that do not
      parse are a `SimulationException`. */
  function Parse(s: string, defaultBase: int): (r: Result<IntegerString>)
    ensures var sp := SplitText(s, defaultBase);
      && (r.Success? <==> ParseUnsignedInt(sp.rest, sp.base).Some?)
      && (r.Failure? ==> r.error.Simulation?)
      && (r.Success? ==> (r.value.base == sp.base
            && (sp.negative ==> StartsWith(r.value.text, "-"))
            && -TWO_31 <= r.value.value < TWO_31))
  {
    var sp := SplitText(s, defaultBase);
    match ParseUnsignedInt(sp.rest, sp.base)
    case None => Failure(Simulation(sp.rest + " is not a valid value of base " + IntText(sp.base)))
    case Some(u) =>
      var sign := if sp.negative then "-" else "";
      Success(IntegerString(sign + BasePrefix(sp.base, defaultBase) + sp.rest,
                            Wrap32((if sp.negative then -1 else 1) * u), sp.base))
  }

  /** `Integer.toString(v)`. */
  function IntText(v: int): string
  {
    SignedText(v, 10)
  }

  /** The Int constructor: base 10, and the text `Integer.toString(value)`. */
  function FromInt(v: int): (r: IntegerString)
    requires -TWO_31 <= v < TWO_31
    ensures r.value == v && r.base == 10
  {
    IntegerString(IntText(v), v, 10)
  }

  /** `prefixedString`: "0b" and the signed binary digits, "#" and the
      decimal number, "0x" and the upper-case hexadecimal digits of the 32
      bits; any other base gives the plain decimal text. */
  function PrefixedString(x: IntegerString): (s: string)
    requires -TWO_31 <= x.value < TWO_31
    ensures x.base == 2 ==> StartsWith(s, "0b")
    ensures x.base == 10 ==> StartsWith(s, "#")
    ensures x.base == 16 ==> StartsWith(s, "0x")
  {
    if x.base == 2 then "0b" + SignedText(x.value, 2)
    else if x.base == 10 then "#" + IntText(x.value)
    else if x.base == 16 then "0x" + ToText(x.value % TWO_32, 16, true)
    else IntText(x.value)
  }

  /** `equals`: the value and the base, never the text. */
  predicate Same(a: IntegerString, b: IntegerString)
  {
    a.value == b.value && a.base == b.base
  }

  // ----- round trips -----

  /** A digit character is never a sign, '#', 'x' or 'b'-as-a-prefix problem
      when it is the first of a digit text: it is '0'..'9' or a letter. */
  lemma TextStart(u: nat, radix: nat, upper: bool)
    requires 2 <= radix <= 36
    ensures var t := ToText(u, radix, upper);
      !StartsWith(t, "-") && !StartsWith(t, "+") && !StartsWith(t, "#")
      && ParseDigits(t, radix) == Some(DigitsOf(u, radix))
      && ValueOf(DigitsOf(u, radix), radix) == u
  {
    var t := ToText(u, radix, upper);
    assert t[0] == DigitChar(DigitsOf(u, radix)[0], upper);
    ParseToText(u, radix, upper);
    DigitsRoundTrip(u, radix);
  }

  /** The digits of a magnitude up to 2^31, read as a signed number after a
      '-' or not, give back the Int. */
  lemma SignedParse(v: int, radix: nat)
    requires 2 <= radix <= 36 && -TWO_31 <= v < TWO_31
    ensures var t := SignedText(v, radix);
      var neg := StartsWith(t, "-");
      var rest := if neg then t[1..] else t;
      && neg == (v < 0)
      && !StartsWith(rest, "-")
      && ParseUnsignedInt(rest, radix).Some?
      && Wrap32((if neg then -1 else 1) * ParseUnsignedInt(rest, radix).value) == v
  {
    var m := if v < 0 then -v else v;
    TextStart(m, radix, false);
    var t := SignedText(v, radix);
    var rest := ToText(m, radix, false);
    if v < 0 {
      assert t == "-" + rest && t[1..] == rest;
      assert StartsWith(t, "-");
      var p := ParseUnsignedInt(rest, radix).value;
      if m < TWO_31 {
        assert p == m;
        Wrap32Mod(-m);
      } else {
        assert p == -TWO_31;
        Wrap32Mod(TWO_31);
      }
    } else {
      assert t == rest;
      Wrap32Mod(v);
    }
  }

  /** `prefixedString` parses back, under any default base, to the same
      value and base, for the three bases with a prefix. */
  lemma PrefixedRoundTrip(x: IntegerString, defaultBase: int)
    requires -TWO_31 <= x.value < TWO_31 && (x.base == 2 || x.base == 10 || x.base == 16)
    ensures Parse(PrefixedString(x), defaultBase).Success?
    ensures Same(Parse(PrefixedString(x), defaultBase).value, x)
  {
    if x.base == 16 {
      HexRoundTrip(x, defaultBase);
    } else {
      SignedRoundTrip(x, defaultBase);
    }
  }

  /** When the digits after the sign and prefix parse, the constructor
      succeeds with the split's base and the signed, wrapped value. */
  lemma ParseOf(s: string, defaultBase: int)
    requires var sp := SplitText(s, defaultBase); ParseUnsignedInt(sp.rest, sp.base).Some?
    ensures var sp := SplitText(s, defaultBase);
      var u := ParseUnsignedInt(sp.rest, sp.base).value;
      && Parse(s, defaultBase).Success?
      && Parse(s, defaultBase).value.base == sp.base
      && Parse(s, defaultBase).value.value == Wrap32((if sp.negative then -1 else 1) * u)
  {
  }

  /** An Int's 32 bits, read back as an Int, are the Int. */
  lemma Int32Bits(v: int)
    requires -TWO_31 <= v < TWO_31
    ensures ToInt32(v % TWO_32) == v
  {
    if v < 0 {
      DivModUnique(v, TWO_32, -1, v + TWO_32);
    } else {
      DivModUnique(v, TWO_32, 0, v);
    }
  }

  /** The hexadecimal case of `PrefixedRoundTrip`. */
  lemma HexRoundTrip(x: IntegerString, defaultBase: int)
    requires -TWO_31 <= x.value < TWO_31 && x.base == 16
    ensures Parse(PrefixedString(x), defaultBase).Success?
    ensures Same(Parse(PrefixedString(x), defaultBase).value, x)
  {
    var s := PrefixedString(x);
    var u := x.value % TWO_32;
    var t := ToText(u, 16, true);
    TextStart(u, 16, true);
    assert s == "0x" + t && s[..2] == "0x" && s[2..] == t;
    assert !StartsWith(s, "-");
    assert SplitText(s, defaultBase) == Split(false, 16, t);
    Int32Bits(x.value);
    assert ParseUnsignedInt(t, 16) == Some(x.value);
    ParseOf(s, defaultBase);
    Wrap32Mod(x.value);
  }

  /** The binary and decimal cases of `PrefixedRoundTrip`. */
  lemma SignedRoundTrip(x: IntegerString, defaultBase: int)
    requires -TWO_31 <= x.value < TWO_31 && (x.base == 2 || x.base == 10)
    ensures Parse(PrefixedString(x), defaultBase).Success?
    ensures Same(Parse(PrefixedString(x), defaultBase).value, x)
  {
    var s := PrefixedString(x);
    var t := SignedText(x.value, x.base);
    SignedParse(x.value, x.base);
    var neg := StartsWith(t, "-");
    var rest := if neg then t[1..] else t;
    if x.base == 2 {
      assert s == "0b" + t;
      SplitAfterPrefix("0b", t, defaultBase, 2);
    } else {
      assert s == "#" + t;
      SplitAfterPrefix("#", t, defaultBase, 10);
    }
    ParseOf(s, defaultBase);
  }

  /** A prefix the constructor writes, then digits with or without a sign,
      split into that sign, the prefix's base and the digits. */
  lemma SplitAfterPrefix(pre: string, t: string, defaultBase: int, base: int)
    requires (pre == "0b" && base == 2) || (pre == "#" && base == 10)
    ensures var neg := StartsWith(t, "-");
      SplitText(pre + t, defaultBase) == Split(neg, base, if neg then t[1..] else t)
  {
    var s := pre + t;
    assert s[..|pre|] == pre && s[|pre|..] == t;
    assert s[0] == pre[0];
    assert !StartsWith(s, "-");
    if pre == "0b" {
      assert s[..2] == "0b";
      assert !StartsWith(s, "0x") && !StartsWith(s, "x");
      assert StripPrefix(s, defaultBase) == (2, t);
    } else {
      assert s[..1] == "#";
      assert !StartsWith(s, "0x") && !StartsWith(s, "x") && !StartsWith(s, "0b") && !StartsWith(s, "b");
      assert StripPrefix(s, defaultBase) == (10, t);
    }
  }

  /** The text of the Int constructor parses back, in base 10, to the very
      same IntegerString, Int.MIN_VALUE included. */
  lemma FromIntRoundTrip(v: int)
    requires -TWO_31 <= v < TWO_31
    ensures Parse(FromInt(v).text, 10) == Success(FromInt(v))
  {
    var m := if v < 0 then -v else v;
    var rest := ToText(m, 10, false);
    SignedParse(v, 10);
    TextStart(m, 10, false);
    DecimalNotPrefixed(m);
    assert IntText(v) == (if v < 0 then "-" else "") + "" + rest;
    SplitComposed(v < 0, "", rest, 10);
  }

  /** Decimal digits never look like a base prefix. */
  lemma DecimalNotPrefixed(m: nat)
    ensures !LooksPrefixed(ToText(m, 10, false))
  {
    var rest := ToText(m, 10, false);
    var ds := DigitsOf(m, 10);
    forall i | 0 <= i < |rest|
      ensures '0' <= rest[i] <= '9'
    {
      assert rest[i] == DigitChar(ds[i], false);
    }
    DigitsNotPrefixed(rest);
  }

  /** A text of decimal digits does not start with a prefix's letters. */
  lemma DigitsNotPrefixed(s: string)
    requires forall i | 0 <= i < |s| :: '0' <= s[i] <= '9'
    ensures !LooksPrefixed(s)
  {
    if |s| >= 1 {
      assert s[..1][0] == s[0];
      assert s[..1] != "x" && s[..1] != "b" && s[..1] != "#";
    }
    if |s| >= 2 {
      assert s[..2][1] == s[1];
      assert s[..2] != "0x" && s[..2] != "0b";
    }
  }

  /** Which base a kept prefix selects. */
  function PrefixBase(pre: string, defaultBase: int): int
  {
    if pre == "0x" then 16 else if pre == "0b" then 2 else if pre == "#" then 10 else defaultBase
  }

  /** A sign, a prefix the constructor writes (or none, when the digits do
      not look prefixed) and digits without a sign split back into exactly
      those parts. */
  lemma SplitComposed(neg: bool, pre: string, rest: string, defaultBase: int)
    requires pre == "0x" || pre == "0b" || pre == "#" || (pre == "" && !LooksPrefixed(rest))
    requires !StartsWith(rest, "-")
    ensures SplitText((if neg then "-" else "") + pre + rest, defaultBase)
      == Split(neg, PrefixBase(pre, defaultBase), rest)
  {
    var body := pre + rest;
    var s := (if neg then "-" else "") + body;
    assert !StartsWith(body, "-") by {
      if pre != "" {
        assert body[0] == pre[0];
      } else {
        assert body == rest;
      }
    }
    var leading := StartsWith(s, "-");
    assert leading == neg && (if leading then s[1..] else s) == body by {
      if neg {
        assert s[..1] == "-" && s[1..] == body;
      } else {
        assert s == body;
      }
    }
    PrefixComposed(pre, rest, defaultBase);
    assert s == (if neg then "-" else "") + pre + rest;
  }

  lemma PrefixComposed(pre: string, rest: string, defaultBase: int)
    requires pre == "0x" || pre == "0b" || pre == "#" || (pre == "" && !LooksPrefixed(rest))
    ensures StripPrefix(pre + rest, defaultBase) == (PrefixBase(pre, defaultBase), rest)
  {
    var body := pre + rest;
    if pre == "0x" {
      assert body[..2] == "0x" && body[2..] == rest;
    } else if pre == "0b" {
      assert body[..2] == "0b" && body[2..] == rest;
      assert body[0] == '0' && body[1] == 'b';
      assert !StartsWith(body, "0x") && !StartsWith(body, "x");
    } else if pre == "#" {
      assert body[..1] == "#" && body[1..] == rest;
      assert body[0] == '#';
      assert !StartsWith(body, "0x") && !StartsWith(body, "x");
      assert !StartsWith(body, "0b") && !StartsWith(body, "b");
    } else {
      assert body == rest;
    }
  }

  /** A text that would be read as carrying a base prefix. */
  predicate LooksPrefixed(s: string)
  {
    StartsWith(s, "0x") || StartsWith(s, "x") || StartsWith(s, "0b") || StartsWith(s, "b") || StartsWith(s, "#")
  }

  /** As written, the text drops the prefix when the base is the default, so
      a hexadecimal number whose digits begin with 'b' reads back as binary:
      "0xb1" under default base 16 is 177 with the text "b1", and "b1" under
      default base 16 is 1 in base 2. */
  lemma TextRoundTripFails()
    ensures Parse("0xb1", 16) == Success(IntegerString("b1", 177, 16))
    ensures Parse("b1", 16) == Success(IntegerString("0b1", 1, 2))
  {
    HexExample();
    BinaryExample();
  }

  lemma HexExample()
    ensures Parse("0xb1", 16) == Success(IntegerString("b1", 177, 16))
  {
    var s1: string := "0xb1";
    assert SplitText(s1, 16) == Split(false, 16, "b1") by {
      assert s1[0] == '0' && s1[1] == 'x';
      assert s1[..1] != "-";
      assert s1[..2] == "0x" && s1[2..] == "b1";
      assert !StartsWith("b1", "-");
    }
    assert ParseUnsignedInt("b1", 16) == Some(177) by {
      var t: string := "b1";
      assert !StartsWith(t, "+");
      assert ParseDigits(t, 16) == Some([11, 1]) by {
        assert t[0] == 'b' && t[1] == '1';
        assert CharDigit('b', 16) == Some(11) && CharDigit('1', 16) == Some(1);
        assert forall i | 0 <= i < |t| :: CharDigit(t[i], 16).Some?;
        assert ParseDigits(t, 16).value == [11, 1];
      }
      assert ValueOf([11, 1], 16) == 177 by {
        assert [11, 1][..1] == [11];
        assert [11][..0] == [];
      }
    }
    assert Wrap32(1 * 177) == 177 by {
      Wrap32Mod(177);
    }
    assert "" + BasePrefix(16, 16) + "b1" == "b1";
  }

  lemma BinaryExample()
    ensures Parse("b1", 16) == Success(IntegerString("0b1", 1, 2))
  {
    var s2: string := "b1";
    assert SplitText(s2, 16) == Split(false, 2, "1") by {
      assert s2[0] == 'b';
      assert s2[..1] != "-";
      assert !StartsWith(s2, "0x") && !StartsWith(s2, "x") && !StartsWith(s2, "0b");
      assert s2[..1] == "b" && s2[1..] == "1";
      assert !StartsWith("1", "-");
    }
    assert ParseUnsignedInt("1", 2) == Some(1) by {
      var t: string := "1";
      assert !StartsWith(t, "+");
      assert ParseDigits(t, 2) == Some([1]) by {
        assert t[0] == '1';
        assert CharDigit('1', 2) == Some(1);
        assert forall i | 0 <= i < |t| :: CharDigit(t[i], 2).Some?;
        assert ParseDigits(t, 2).value == [1];
      }
      assert ValueOf([1], 2) == 1 by {
        assert [1][..0] == [];
      }
    }
    assert Wrap32(1 * 1) == 1 by {
      Wrap32Mod(1);
    }
    assert "" + BasePrefix(2, 16) + "1" == "0b1";
  }

  /** The text as evidently intended: the base prefix is also kept when the
      base is the default but the digits would otherwise be read as
      prefixed. */
  function CorrectedPrefix(base: int, defaultBase: int, rest: string): string
  {
    if base == defaultBase && LooksPrefixed(rest) then
      (if base == 2 then "0b" else if base == 10 then "#" else if base == 16 then "0x" else "")
    else BasePrefix(base, defaultBase)
  }

  /** The string constructor with the corrected text. */
  function ParseCorrected(s: string, defaultBase: int): (r: Result<IntegerString>)
    ensures Parse(s, defaultBase).Success? <==> r.Success?
    ensures r.Success? ==> Same(r.value, Parse(s, defaultBase).value)
  {
    var sp := SplitText(s, defaultBase);
    match ParseUnsignedInt(sp.rest, sp.base)
    case None => Failure(Simulation(sp.rest + " is not a valid value of base " + IntText(sp.base)))
    case Some(u) =>
      var sign := if sp.negative then "-" else "";
      Success(IntegerString(sign + CorrectedPrefix(sp.base, defaultBase, sp.rest) + sp.rest,
                            Wrap32((if sp.negative then -1 else 1) * u), sp.base))
  }

  /** With the corrected text, reparsing the text under the same default base
      gives back an equal IntegerString with the very same text. */
  lemma CorrectedTextRoundTrip(s: string, defaultBase: int)
    requires ParseCorrected(s, defaultBase).Success?
    ensures var x := ParseCorrected(s, defaultBase).value;
      ParseCorrected(x.text, defaultBase) == Success(x)
  {
    var sp := SplitText(s, defaultBase);
    var x := ParseCorrected(s, defaultBase).value;
    var pre := CorrectedPrefix(sp.base, defaultBase, sp.rest);
    UnsignedDigits(sp.rest, sp.base);
    assert pre == "0x" || pre == "0b" || pre == "#" || (pre == "" && !LooksPrefixed(sp.rest)) by {
      CorrectedPrefixKinds(sp.base, defaultBase, sp.rest, s);
    }
    SplitComposed(sp.negative, pre, sp.rest, defaultBase);
    assert PrefixBase(pre, defaultBase) == sp.base by {
      CorrectedPrefixKinds(sp.base, defaultBase, sp.rest, s);
    }
  }

  /** Text that `parseUnsignedInt` accepts does not start with '-'. */
  lemma UnsignedDigits(rest: string, radix: int)
    requires ParseUnsignedInt(rest, radix).Some?
    ensures !StartsWith(rest, "-")
  {
  }

  /** The corrected prefix is one the constructor recognises, selecting the
      base it came from; it is empty only for the default base with digits
      that do not look prefixed. */
  lemma CorrectedPrefixKinds(base: int, defaultBase: int, rest: string, s: string)
    requires base == SplitText(s, defaultBase).base && rest == SplitText(s, defaultBase).rest
    ensures var pre := CorrectedPrefix(base, defaultBase, rest);
      && (pre == "0x" || pre == "0b" || pre == "#" || (pre == "" && !LooksPrefixed(rest)))
      && PrefixBase(pre, defaultBase) == base
  {
    var pre := CorrectedPrefix(base, defaultBase, rest);
    if base != defaultBase {
      assert base == 2 || base == 10 || base == 16;
    } else if LooksPrefixed(rest) {
      assert base == 2 || base == 10 || base == 16 by {
        var leading := StartsWith(s, "-");
        var t := if leading then s[1..] else s;
        assert StripPrefix(t, defaultBase).0 == base;
        if !(StartsWith(t, "0x") || StartsWith(t, "x") || StartsWith(t, "0b") || StartsWith(t, "b") || StartsWith(t, "#")) {
          assert false;
        }
      }
    }
  }
}
