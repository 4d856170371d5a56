/** `Array.from(new Set(xs))`: the distinct elements in order of first occurrence.
    `Array.prototype.unique` is exactly this, and the CSS-module code builds its class
    list the same way. */
module Collections {

  /** Appends to `acc` each element of `xs` not already present, in order. */
  function UniqueInto<T(==)>(acc: seq<T>, xs: seq<T>): seq<T>
    decreases |xs|
  {
    if xs == [] then acc
    else UniqueInto(if xs[0] in acc then acc else acc + [xs[0]], xs[1..])
  }

  function Unique<T(==)>(xs: seq<T>): seq<T> {
    UniqueInto([], xs)
  }

  predicate NoDuplicates<T(==)>(s: seq<T>) {
    forall i, j :: 0 <= i < j < |s| ==> s[i] != s[j]
  }

  /** Reference definition: the elements of `xs` at the positions where they occur for
      the first time, in input order. */
  function FirstOccurrences<T(==)>(xs: seq<T>): seq<T>
  {
    if xs == [] then []
    else
      var init := xs[..|xs| - 1];
      FirstOccurrences(init) + (if xs[|xs| - 1] in init then [] else [xs[|xs| - 1]])
  }

  lemma {:induction false} FirstOccurrencesElements<T>(xs: seq<T>)
    ensures forall x :: x in FirstOccurrences(xs) <==> x in xs
  {
    if xs != [] {
      var init := xs[..|xs| - 1];
      FirstOccurrencesElements(init);
      assert xs == init + [xs[|xs| - 1]];
    }
  }

  lemma {:induction false} UniqueIntoFirsts<T>(p: seq<T>, s: seq<T>)
    ensures UniqueInto(FirstOccurrences(p), s) == FirstOccurrences(p + s)
    decreases |s|
  {
    if s == [] {
      assert p + s == p;
    } else {
      var x := s[0];
      FirstOccurrencesElements(p);
      assert (p + [x])[..|p + [x]| - 1] == p;
      assert FirstOccurrences(p + [x]) == FirstOccurrences(p) + (if x in p then [] else [x]);
      var f := FirstOccurrences(p);
      assert (x in f) == (x in p);
      assert UniqueInto(f, s) == UniqueInto(if x in f then f else f + [x], s[1..]);
      assert f + [] == f;
      assert (if x in f then f else f + [x]) == FirstOccurrences(p + [x]);
      UniqueIntoFirsts(p + [x], s[1..]);
      assert p + [x] + s[1..] == p + s;
    }
  }

  /** `Unique` keeps exactly the first occurrence of every element, in input order. */
  lemma UniqueIsFirstOccurrences<T>(xs: seq<T>)
    ensures Unique(xs) == FirstOccurrences(xs)
  {
    UniqueIntoFirsts([], xs);
    assert [] + xs == xs;
  }

  lemma {:induction false} UniqueIntoProps<T>(acc: seq<T>, xs: seq<T>)
    requires NoDuplicates(acc)
    ensures var r := UniqueInto(acc, xs);
      && NoDuplicates(r)
      && (forall x :: x in r <==> x in acc || x in xs)
    decreases |xs|
  {
    if xs != [] {
      var acc' := if xs[0] in acc then acc else acc + [xs[0]];
      UniqueIntoProps(acc', xs[1..]);
      forall x ensures x in xs <==> x == xs[0] || x in xs[1..] {
        assert xs == [xs[0]] + xs[1..];
      }
    }
  }

  /** The result holds no element twice, and exactly the elements of the input. */
  lemma UniqueElements<T>(xs: seq<T>)
    ensures NoDuplicates(Unique(xs))
    ensures forall x :: x in Unique(xs) <==> x in xs
  {
    UniqueIntoProps([], xs);
  }
}
