/** Duplicate-free sequences standing for the source's `HashSet`s: the
    order of a sequence stands for the set's iteration order, which the
    source leaves unspecified. */
module OrderedSets {

  predicate Distinct<T(==)>(s: seq<T>)
  {
    forall i, j | 0 <= i < j < |s| :: s[i] != s[j]
  }

  /** `add`: appends the element unless it is already there. */
  function Insert<T(==,!new)>(s: seq<T>, x: T): (r: seq<T>)
    ensures forall y :: y in r <==> y in s || y == x
    ensures Distinct(s) ==> Distinct(r)
    ensures x in s ==> r == s
  {
    if x in s then s else s + [x]
  }

  /** `remove`: drops every occurrence of the element, keeping the order of the rest. */
  function Delete<T(==,!new)>(s: seq<T>, x: T): (r: seq<T>)
    ensures forall y :: y in r <==> y in s && y != x
    ensures |r| <= |s| && (x in s ==> |r| < |s|)
    ensures Distinct(s) ==> Distinct(r)
    ensures x !in s ==> r == s
  {
    if s == [] then []
    else
      var rest := Delete(s[1..], x);
      assert Distinct(s) ==> s[0] !in s[1..] && Distinct(s[1..]) by {
        if Distinct(s) {
          assert forall j | 1 <= j < |s| :: s[0] != s[j];
        }
      }
      if s[0] == x then rest else [s[0]] + rest
  }

  /** Adding an absent element and removing it again gives the original. */
  lemma {:induction false} DeleteInsert<T(!new)>(s: seq<T>, x: T)
    requires x !in s
    ensures Delete(Insert(s, x), x) == s
  {
    if s != [] {
      assert (s + [x])[1..] == s[1..] + [x];
      DeleteInsert(s[1..], x);
    }
  }

  /** A sequence is empty exactly when nothing is in it. */
  lemma EmptyIffNoMember<T(!new)>(s: seq<T>)
    ensures s == [] <==> forall x :: x !in s
  {
    if s != [] {
      assert s[0] in s;
    }
  }

  /** The elements that satisfy `f` and those that do not, each in order. */
  function Split<T(!new)>(s: seq<T>, f: T -> bool): (r: (seq<T>, seq<T>))
    ensures forall x :: x in r.0 <==> x in s && f(x)
    ensures forall x :: x in r.1 <==> x in s && !f(x)
    ensures |r.0| + |r.1| == |s|
  {
    if s == [] then ([], [])
    else
      var rest := Split(s[1..], f);
      if f(s[0]) then ([s[0]] + rest.0, rest.1) else (rest.0, [s[0]] + rest.1)
  }

  /** `addAll`: each element in turn. */
  function InsertAll<T(==,!new)>(s: seq<T>, xs: seq<T>): (r: seq<T>)
    ensures forall y :: y in r <==> y in s || y in xs
    ensures Distinct(s) ==> Distinct(r)
    decreases |xs|
  {
    if xs == [] then s
    else
      assert forall y | y in xs :: y == xs[0] || y in xs[1..];
      InsertAll(Insert(s, xs[0]), xs[1..])
  }
}
