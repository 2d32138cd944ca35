/** A property whose value must be one of a fixed list
    (PropertyListValidator.java): values are shown through a display
    function and read back by finding the first listed value that shows as
    the given text. The list is a `seq`, so it cannot be modified once the
    validator holds it. */
module ListValidators {
  import opened Wrappers

  /** The valid values and the display function (`T::toString` when none is given). */
  datatype Validator<!T> = Validator(values: seq<T>, display: T -> string)

  /** The position of the first value at or after `from` that displays as text. */
  function FirstShownAs<T>(v: Validator<T>, text: string, from: nat): (r: Option<nat>)
    requires from <= |v.values|
    ensures r.Some? ==> from <= r.value < |v.values| && v.display(v.values[r.value]) == text
    ensures r.Some? ==> forall j | from <= j < r.value :: v.display(v.values[j]) != text
    ensures r.None? ==> forall j | from <= j < |v.values| :: v.display(v.values[j]) != text
    decreases |v.values| - from
  {
    if from == |v.values| then None
    else if v.display(v.values[from]) == text then Some(from)
    else FirstShownAs(v, text, from + 1)
  }

  /** `parse`: the first valid value whose display is the text, or
      `IllegalArgumentException` "Value not found". */
  function Parse<T>(v: Validator<T>, text: string): (r: Result<T>)
    ensures r.Success? <==> exists j | 0 <= j < |v.values| :: v.display(v.values[j]) == text
    ensures r.Success? ==> exists j | 0 <= j < |v.values| ::
      (v.values[j] == r.value && v.display(r.value) == text && forall k | 0 <= k < j :: v.display(v.values[k]) != text)
    ensures r.Failure? ==> r.error == IllegalArgument("Value not found: " + text)
  {
    var i := FirstShownAs(v, text, 0);
    if i.None? then Failure(IllegalArgument("Value not found: " + text)) else Success(v.values[i.value])
  }

  /** `toString`: empty for null, else the display text. */
  function Show<T>(v: Validator<T>, x: Option<T>): (r: string)
    ensures x.Some? ==> r == v.display(x.value)
    ensures x.None? ==> r == ""
  {
    if x.None? then "" else v.display(x.value)
  }

  /** Showing a listed value and parsing the text back gives that value,
      provided no earlier value shows the same; in any case it gives a
      listed value that shows the same. */
  lemma ParseShow<T>(v: Validator<T>, i: nat)
    requires i < |v.values|
    ensures Parse(v, Show(v, Some(v.values[i]))).Success?
    ensures v.display(Parse(v, Show(v, Some(v.values[i]))).value) == v.display(v.values[i])
    ensures (forall k | 0 <= k < i :: v.display(v.values[k]) != v.display(v.values[i])) ==>
      Parse(v, Show(v, Some(v.values[i]))) == Success(v.values[i])
  {
    var text := v.display(v.values[i]);
    var r := FirstShownAs(v, text, 0);
    if forall k | 0 <= k < i :: v.display(v.values[k]) != text {
      assert r.value == i;
    }
  }

  /** What `equals` is given: another list validator (its values), or any
      other object. */
  datatype Other<T> = ListValidator(values: seq<T>) | NotListValidator

  /** `equals` as written: validators compare by their value lists, and any
      other object is reported equal. */
  function Equals<T(==)>(v: Validator<T>, other: Other<T>): (r: bool)
    ensures other.ListValidator? ==> (r <==> v.values == other.values)
    ensures other.NotListValidator? ==> r
  {
    match other
    case ListValidator(values) => v.values == values
    case NotListValidator => true
  }

  /** `equals` as evidently intended: false for any object that is not a
      list validator. */
  function EqualsCorrected<T(==)>(v: Validator<T>, other: Other<T>): (r: bool)
    ensures r <==> other.ListValidator? && v.values == other.values
  {
    other.ListValidator? && v.values == other.values
  }

  /** `Object.equals` of an object of another class, which cannot be a list
      validator: false when given one. */
  function OtherEquals<T>(v: Validator<T>): bool { false }

  /** As written, `equals` is not symmetric: a validator claims to equal an
      object of another class, which does not return the favour. */
  lemma EqualsNotSymmetric<T>(v: Validator<T>)
    ensures Equals(v, NotListValidator) && !OtherEquals(v)
  {
  }

  /** The corrected `equals` is reflexive and symmetric, and agrees with the
      written one on list validators. */
  lemma EqualsCorrectedSymmetric<T>(v: Validator<T>, w: Validator<T>, other: Other<T>)
    ensures EqualsCorrected(v, ListValidator(v.values))
    ensures EqualsCorrected(v, ListValidator(w.values)) == EqualsCorrected(w, ListValidator(v.values))
    ensures EqualsCorrected(v, NotListValidator) == OtherEquals(v)
    ensures other.ListValidator? ==> EqualsCorrected(v, other) == Equals(v, other)
  {
  }

  /** `equals` ignores the display function, so two equal validators can
      read the same text as different values. */
  lemma EqualValidatorsParseDifferently()
    ensures var v := Validator([1, 2], (x: int) => if x == 1 then "a" else "b");
      var w := Validator([1, 2], (x: int) => if x == 2 then "a" else "b");
      Equals(v, ListValidator(w.values)) && Parse(v, "a") == Success(1) && Parse(w, "a") == Success(2)
  {
    var v := Validator([1, 2], (x: int) => if x == 1 then "a" else "b");
    var w := Validator([1, 2], (x: int) => if x == 2 then "a" else "b");
    assert FirstShownAs(v, "a", 0) == Some(0);
    assert FirstShownAs(w, "a", 1) == Some(1);
    assert FirstShownAs(w, "a", 0) == Some(1);
  }
}
