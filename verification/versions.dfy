/** Release version strings (CircuitSimVersion.kt): the first substring of
    the form `<digits>.<digits>.<digits>` with an optional trailing `b`
    (beta) names the version, and versions order lexicographically by
    major, minor and bugfix number, a beta below its release. */
module Versions {
  import opened Wrappers
  import opened BitMath
  import opened Digits

  /** A parsed version: the text it came from and its four fields. */
  datatype Version = Version(text: string, major: int, minor: int, bugfix: int, beta: bool)

  /** The four capture groups of `VERSION_PATTERN`. */
  datatype Groups = Groups(major: string, minor: string, bugfix: string, beta: bool)

  /** `\d` of `java.util.regex`, which without flags is ASCII only. */
  predicate IsDigit(c: char) { '0' <= c <= '9' }

  predicate AllDigits(s: string) { forall k | 0 <= k < |s| :: IsDigit(s[k]) }

  /** The end of the longest run of digits starting at i. */
  function DigitRun(s: string, i: nat): (r: nat)
    requires i <= |s|
    ensures i <= r <= |s|
    ensures forall k | i <= k < r :: IsDigit(s[k])
    ensures r == |s| || !IsDigit(s[r])
    decreases |s| - i
  {
    if i == |s| || !IsDigit(s[i]) then i else DigitRun(s, i + 1)
  }

  /** A run that stops at a non-digit (or the end) is the longest run. */
  lemma {:induction false} DigitRunStops(s: string, i: nat, j: nat)
    requires i <= j <= |s|
    requires forall k | i <= k < j :: IsDigit(s[k])
    requires j == |s| || !IsDigit(s[j])
    ensures DigitRun(s, i) == j
    decreases j - i
  {
    if i < j {
      DigitRunStops(s, i + 1, j);
    }
  }

  /** Whether the pattern matches at position i, and with which groups. Each
      `\d+` is greedy and the character after it must be a '.', so only the
      longest digit run can be a group; the last group is likewise the longest
      run, and `b?` takes a following 'b'. */
  function MatchAt(s: string, i: nat): (r: Option<Groups>)
    requires i <= |s|
    ensures r.Some? ==> Shape(s, i, r.value)
  {
    var a := DigitRun(s, i);
    if a == i || a == |s| || s[a] != '.' then None
    else
      var b := DigitRun(s, a + 1);
      if b == a + 1 || b == |s| || s[b] != '.' then None
      else
        var c := DigitRun(s, b + 1);
        if c == b + 1 then None
        else
          Some(Groups(s[i..a], s[a + 1..b], s[b + 1..c], c < |s| && s[c] == 'b'))
  }

  /** The regular language itself: s has, at position i, a match of the
      pattern whose groups are g (each group a non-empty digit string, the
      first two followed by '.', and a 'b' after the third when beta). */
  predicate Shape(s: string, i: nat, g: Groups)
  {
    var a := i + |g.major|;
    var b := a + 1 + |g.minor|;
    var c := b + 1 + |g.bugfix|;
    && |g.major| > 0 && |g.minor| > 0 && |g.bugfix| > 0
    && AllDigits(g.major) && AllDigits(g.minor) && AllDigits(g.bugfix)
    && c + (if g.beta then 1 else 0) <= |s|
    && s[i..a] == g.major && s[a] == '.' && s[a + 1..b] == g.minor && s[b] == '.' && s[b + 1..c] == g.bugfix
    && (g.beta ==> s[c] == 'b')
  }

  /** Whenever the pattern can match at i at all, `MatchAt` finds a match
      there, with the same first two groups and a third group that extends
      the given one: so `MatchAt` is None exactly when no match starts at i. */
  lemma MatchAtComplete(s: string, i: nat, g: Groups)
    requires i <= |s| && Shape(s, i, g)
    ensures MatchAt(s, i).Some?
    ensures MatchAt(s, i).value.major == g.major && MatchAt(s, i).value.minor == g.minor
    ensures |g.bugfix| <= |MatchAt(s, i).value.bugfix| && MatchAt(s, i).value.bugfix[..|g.bugfix|] == g.bugfix
  {
    var a := i + |g.major|;
    var b := a + 1 + |g.minor|;
    var c0 := b + 1 + |g.bugfix|;
    assert DigitRun(s, i) == a by {
      GroupRun(s, i, a);
    }
    assert DigitRun(s, a + 1) == b by {
      GroupRun(s, a + 1, b);
    }
    assert c0 <= DigitRun(s, b + 1) by {
      forall k | b + 1 <= k < c0 ensures IsDigit(s[k]) {
        assert s[k] == s[b + 1..c0][k - b - 1];
      }
      ThirdGroupLongest(s, b + 1, c0);
    }
    var c := DigitRun(s, b + 1);
    MatchAtRuns(s, i, a, b);
    assert s[b + 1..c][..|g.bugfix|] == s[b + 1..c0];
  }

  /** `MatchAt` once the first two groups' runs are known. */
  lemma MatchAtRuns(s: string, i: nat, a: nat, b: nat)
    requires i < a && a + 1 < b < |s| && DigitRun(s, i) == a && s[a] == '.' && DigitRun(s, a + 1) == b && s[b] == '.'
    requires DigitRun(s, b + 1) > b + 1
    ensures var c := DigitRun(s, b + 1);
      MatchAt(s, i) == Some(Groups(s[i..a], s[a + 1..b], s[b + 1..c], c < |s| && s[c] == 'b'))
  {
  }

  /** A group of digits followed by a non-digit, or by the end, is exactly
      the longest digit run. */
  lemma GroupRun(s: string, i: nat, j: nat)
    requires i <= j <= |s| && AllDigits(s[i..j]) && (j == |s| || !IsDigit(s[j]))
    ensures DigitRun(s, i) == j
  {
    forall k | i <= k < j ensures IsDigit(s[k]) {
      assert s[k] == s[i..j][k - i];
    }
    DigitRunStops(s, i, j);
  }

  /** The longest digit run from i reaches at least as far as any run of digits from i. */
  lemma {:induction false} ThirdGroupLongest(s: string, i: nat, j: nat)
    requires i <= j <= |s|
    requires forall k | i <= k < j :: IsDigit(s[k])
    ensures j <= DigitRun(s, i)
    decreases j - i
  {
    if i < j {
      ThirdGroupLongest(s, i + 1, j);
    }
  }

  /** `Matcher.find()`: the leftmost position at or after i where the pattern matches. */
  function FindFrom(s: string, i: nat): (r: Option<nat>)
    requires i <= |s|
    ensures r.Some? ==> i <= r.value <= |s| && MatchAt(s, r.value).Some?
    ensures r.Some? ==> forall k | i <= k < r.value :: MatchAt(s, k).None?
    ensures r.None? ==> forall k | i <= k <= |s| :: MatchAt(s, k).None?
    decreases |s| - i
  {
    if MatchAt(s, i).Some? then Some(i)
    else if i == |s| then None
    else FindFrom(s, i + 1)
  }

  /** The constructor rejects a string exactly when no substring of it,
      anywhere, is in the pattern's language. */
  lemma InvalidIffNoMatch(text: string)
    ensures Parse(text) == Failure(IllegalArgument("Invalid version string: " + text))
      <== forall i, g | 0 <= i <= |text| :: !Shape(text, i, g)
    ensures FindFrom(text, 0).None? <==> forall i, g | 0 <= i <= |text| :: !Shape(text, i, g)
  {
    if FindFrom(text, 0).None? {
      forall i, g | 0 <= i <= |text| ensures !Shape(text, i, g) {
        if Shape(text, i, g) {
          MatchAtComplete(text, i, g);
        }
      }
    } else {
      var p := FindFrom(text, 0).value;
      assert Shape(text, p, MatchAt(text, p).value);
    }
  }

  /** The number a string of decimal digits writes, most significant first. */
  function Decimal(g: string): nat
    requires AllDigits(g)
  {
    if |g| == 0 then 0 else Decimal(g[..|g| - 1]) * 10 + (g[|g| - 1] as int - '0' as int)
  }

  /** `String.toInt` on a digit string (`Integer.parseInt`): the decimal
      value when it fits in an Int, and otherwise, or for an empty string,
      `NumberFormatException` (an `IllegalArgumentException`) naming the
      text in quotes. */
  function DecimalInt(g: string): (r: Result<int>)
    requires AllDigits(g)
    ensures r.Success? <==> |g| > 0 && Decimal(g) < TWO_31
    ensures r.Success? ==> r.value == Decimal(g) && 0 <= r.value < TWO_31
    ensures r.Failure? ==> r.error == IllegalArgument("For input string: \"" + g + "\"")
  {
    assert forall k | 0 <= k < |g| :: CharDigit(g[k], 10).Some?;
    var u := ValueOf(ParseDigits(g, 10).value, 10);
    DecimalDigits(g);
    if |g| > 0 && u < TWO_31 then Success(u) else Failure(IllegalArgument("For input string: \"" + g + "\""))
  }

  /** Reading the digits one by one as `Character.digit` does gives the
      decimal value. */
  lemma {:induction false} DecimalDigits(g: string)
    requires AllDigits(g)
    ensures ParseDigits(g, 10).Some? && ValueOf(ParseDigits(g, 10).value, 10) == Decimal(g)
    decreases |g|
  {
    assert forall k | 0 <= k < |g| :: CharDigit(g[k], 10).Some?;
    if |g| > 0 {
      var h := g[..|g| - 1];
      DecimalDigits(h);
      var ds := ParseDigits(g, 10).value;
      assert ds[..|ds| - 1] == ParseDigits(h, 10).value;
    }
  }

  /** The `CircuitSimVersion` constructor. */
  function Parse(text: string): (r: Result<Version>)
    ensures r.Success? ==> r.value.text == text
    ensures FindFrom(text, 0).None? ==> r == Failure(IllegalArgument("Invalid version string: " + text))
    ensures FindFrom(text, 0).Some? ==> var g := MatchAt(text, FindFrom(text, 0).value).value;
      (r.Success? <==> DecimalInt(g.major).Success? && DecimalInt(g.minor).Success? && DecimalInt(g.bugfix).Success?)
    ensures r.Success? ==> 0 <= r.value.major < TWO_31 && 0 <= r.value.minor < TWO_31 && 0 <= r.value.bugfix < TWO_31
  {
    var p := FindFrom(text, 0);
    if p.None? then Failure(IllegalArgument("Invalid version string: " + text))
    else
      var g := MatchAt(text, p.value).value;
      var major := DecimalInt(g.major);
      var minor := DecimalInt(g.minor);
      var bugfix := DecimalInt(g.bugfix);
      if major.Failure? then Failure(major.error)
      else if minor.Failure? then Failure(minor.error)
      else if bugfix.Failure? then Failure(bugfix.error)
      else Success(Version(text, major.value, minor.value, bugfix.value, g.beta))
  }

  /** A version string in canonical form. */
  function Format(major: nat, minor: nat, bugfix: nat, beta: bool): string
  {
    ToText(major, 10, false) + "." + ToText(minor, 10, false) + "." + ToText(bugfix, 10, false)
      + (if beta then "b" else "")
  }

  /** The decimal text of a number is all digits and reads back as the number. */
  lemma DecimalText(u: nat)
    requires u < TWO_31
    ensures AllDigits(ToText(u, 10, false))
    ensures DecimalInt(ToText(u, 10, false)) == Success(u)
  {
    var t := ToText(u, 10, false);
    var ds := DigitsOf(u, 10);
    assert forall k | 0 <= k < |t| :: t[k] == DigitChar(ds[k], false);
    ParseToText(u, 10, false);
    DigitsRoundTrip(u, 10);
  }

  /** Formatting a version and parsing it back gives the same fields. */
  lemma ParseFormat(major: nat, minor: nat, bugfix: nat, beta: bool)
    requires major < TWO_31 && minor < TWO_31 && bugfix < TWO_31
    ensures Parse(Format(major, minor, bugfix, beta))
      == Success(Version(Format(major, minor, bugfix, beta), major, minor, bugfix, beta))
  {
    var s := Format(major, minor, bugfix, beta);
    var g := Groups(ToText(major, 10, false), ToText(minor, 10, false), ToText(bugfix, 10, false), beta);
    DecimalText(major);
    DecimalText(minor);
    DecimalText(bugfix);
    FormatMatch(g);
  }

  /** The canonical text of digit groups matches at 0 with exactly those groups. */
  lemma FormatMatch(g: Groups)
    requires |g.major| > 0 && |g.minor| > 0 && |g.bugfix| > 0
    requires AllDigits(g.major) && AllDigits(g.minor) && AllDigits(g.bugfix)
    ensures MatchAt(g.major + "." + g.minor + "." + g.bugfix + (if g.beta then "b" else ""), 0) == Some(g)
  {
    var e: string := if g.beta then "b" else "";
    var s := g.major + "." + g.minor + "." + g.bugfix + e;
    var a := |g.major|;
    var b := a + 1 + |g.minor|;
    var c := b + 1 + |g.bugfix|;
    FormatLayout(g.major, g.minor, g.bugfix, e);
    GroupRun(s, 0, a);
    GroupRun(s, a + 1, b);
    GroupRun(s, b + 1, c);
    MatchAtRuns(s, 0, a, b);
    assert (c < |s| && s[c] == 'b') == g.beta;
    assert Groups(s[0..a], s[a + 1..b], s[b + 1..c], g.beta) == g;
  }

  /** Where the groups and dots of the canonical text lie. */
  lemma FormatLayout(x: string, y: string, z: string, e: string)
    ensures var s := x + "." + y + "." + z + e;
      var a := |x|;
      var b := a + 1 + |y|;
      var c := b + 1 + |z|;
      && |s| == c + |e|
      && s[0..a] == x && s[a] == '.' && s[a + 1..b] == y && s[b] == '.' && s[b + 1..c] == z
      && (c < |s| ==> s[c] == e[0])
  {
    var s := x + "." + y + "." + z + e;
    assert s == x + ("." + (y + ("." + (z + e))));
  }

  /** `CircuitSimVersion.VERSION`: "1.11.0-CE" is release 1.11.0, not a beta. */
  lemma CurrentVersion()
    ensures Parse("1.11.0-CE") == Success(Version("1.11.0-CE", 1, 11, 0, false))
  {
    CurrentVersionMatch();
    DecimalText(1);
    DecimalText(11);
    DecimalText(0);
    assert ToText(1, 10, false) == "1" && ToText(0, 10, false) == "0";
    assert ToText(11, 10, false) == "11" by {
      assert DigitsOf(11, 10) == DigitsOf(1, 10) + [1];
    }
  }

  lemma CurrentVersionMatch()
    ensures MatchAt("1.11.0-CE", 0) == Some(Groups("1", "11", "0", false))
  {
    var s: string := "1.11.0-CE";
    assert s[1] == '.' && s[4] == '.' && !IsDigit(s[6]) && s[6] != 'b';
    GroupRun(s, 0, 1);
    GroupRun(s, 2, 4);
    DigitRunStops(s, 5, 6);
    assert s[0..1] == "1" && s[2..4] == "11" && s[5..6] == "0";
  }

  // ----- ordering -----

  /** `Int.compareTo` and `Boolean.compareTo`: -1, 0 or 1. */
  function Sign(x: int): (r: int)
    ensures r == -1 || r == 0 || r == 1
    ensures (r < 0 <==> x < 0) && (r > 0 <==> x > 0)
  {
    if x < 0 then -1 else if x > 0 then 1 else 0
  }

  function BoolRank(b: bool): int { if b then 1 else 0 }

  /** `compareTo`: the sign of the weighted sum of the four field
      comparisons; the beta flags are compared the other way round, so a
      beta sorts below its release. A null version compares as equal. */
  function Compare(v: Version, other: Option<Version>): (r: int)
    ensures r == -1 || r == 0 || r == 1
    ensures other.None? ==> r == 0
  {
    match other
    case None => 0
    case Some(w) =>
      Sign(Sign(v.major - w.major) * 8 + Sign(v.minor - w.minor) * 4 + Sign(v.bugfix - w.bugfix) * 2
        + Sign(BoolRank(w.beta) - BoolRank(v.beta)))
  }

  /** The reference order: lexicographic on (major, minor, bugfix, released),
      where a beta counts as not yet released. */
  predicate Before(v: Version, w: Version)
  {
    || v.major < w.major
    || (v.major == w.major && v.minor < w.minor)
    || (v.major == w.major && v.minor == w.minor && v.bugfix < w.bugfix)
    || (v.major == w.major && v.minor == w.minor && v.bugfix == w.bugfix && v.beta && !w.beta)
  }

  predicate SameRelease(v: Version, w: Version)
  {
    v.major == w.major && v.minor == w.minor && v.bugfix == w.bugfix && v.beta == w.beta
  }

  /** The 8/4/2/1 weights make the sign of `compareTo` the lexicographic
      comparison: -1 exactly when v comes first, 0 exactly on the same
      release (whatever the text), 1 exactly when w comes first. */
  lemma CompareIsLexicographic(v: Version, w: Version)
    ensures Compare(v, Some(w)) == -1 <==> Before(v, w)
    ensures Compare(v, Some(w)) == 0 <==> SameRelease(v, w)
    ensures Compare(v, Some(w)) == 1 <==> Before(w, v)
  {
  }

  /** `compareTo` is antisymmetric. */
  lemma CompareAntisymmetric(v: Version, w: Version)
    ensures Compare(v, Some(w)) == -Compare(w, Some(v))
  {
    CompareIsLexicographic(v, w);
    CompareIsLexicographic(w, v);
  }

  /** `compareTo` is transitive. */
  lemma CompareTransitive(u: Version, v: Version, w: Version)
    requires Compare(u, Some(v)) < 0 && Compare(v, Some(w)) < 0
    ensures Compare(u, Some(w)) < 0
  {
    CompareIsLexicographic(u, v);
    CompareIsLexicographic(v, w);
    CompareIsLexicographic(u, w);
  }
}
