/**
 * The general contract of `Comparator.compare` and `Comparable.compareTo`
 * (the `java.util.Comparator` documentation), for an `int`-valued comparison
 * function, and the sortedness notions the collections rely on.
 */
module Comparison {

  function Sign(x: int): (s: int)
    ensures s == -1 || s == 0 || s == 1
    ensures s < 0 <==> x < 0
    ensures s == 0 <==> x == 0
  {
    if x < 0 then -1 else if x == 0 then 0 else 1
  }

  ghost predicate Antisymmetric<T(!new)>(cmp: (T, T) -> int) {
    forall x, y :: Sign(cmp(x, y)) == -Sign(cmp(y, x))
  }

  ghost predicate Transitive<T(!new)>(cmp: (T, T) -> int) {
    forall x, y, z :: cmp(x, y) > 0 && cmp(y, z) > 0 ==> cmp(x, z) > 0
  }

  ghost predicate ZeroSubstitutive<T(!new)>(cmp: (T, T) -> int) {
    forall x, y, z :: cmp(x, y) == 0 ==> Sign(cmp(x, z)) == Sign(cmp(y, z))
  }

  /** The three clauses a comparator must satisfy for sorting and sorted collections to behave. */
  ghost predicate IsComparator<T(!new)>(cmp: (T, T) -> int) {
    Antisymmetric(cmp) && Transitive(cmp) && ZeroSubstitutive(cmp)
  }

  /** Non-decreasing order, as a sort leaves a list. */
  ghost predicate SortedBy<T>(cmp: (T, T) -> int, s: seq<T>) {
    forall i, j :: 0 <= i < j < |s| ==> cmp(s[i], s[j]) <= 0
  }

  /** Strictly increasing order, as a `TreeSet` or the keys of a `TreeMap` iterate. */
  ghost predicate StrictlySortedBy<T>(cmp: (T, T) -> int, s: seq<T>) {
    forall i, j :: 0 <= i < j < |s| ==> cmp(s[i], s[j]) < 0
  }

  lemma ZeroOnSelf<T(!new)>(cmp: (T, T) -> int, x: T)
    requires Antisymmetric(cmp)
    ensures cmp(x, x) == 0
  {
    assert Sign(cmp(x, x)) == -Sign(cmp(x, x));
  }

  lemma LessThenAtMost<T(!new)>(cmp: (T, T) -> int, x: T, y: T, z: T)
    requires IsComparator(cmp)
    requires cmp(x, y) < 0 && cmp(y, z) <= 0
    ensures cmp(x, z) < 0
  {
    assert Sign(cmp(y, x)) == -Sign(cmp(x, y));
    assert Sign(cmp(z, y)) == -Sign(cmp(y, z));
    if cmp(y, z) == 0 {
      assert Sign(cmp(y, x)) == Sign(cmp(z, x));
    } else {
      assert cmp(z, y) > 0 && cmp(y, x) > 0;
    }
    assert Sign(cmp(x, z)) == -Sign(cmp(z, x));
  }

  lemma AtMostThenAtMost<T(!new)>(cmp: (T, T) -> int, x: T, y: T, z: T)
    requires IsComparator(cmp)
    requires cmp(x, y) <= 0 && cmp(y, z) <= 0
    ensures cmp(x, z) <= 0
  {
    if cmp(x, y) < 0 {
      LessThenAtMost(cmp, x, y, z);
    } else {
      assert Sign(cmp(x, z)) == Sign(cmp(y, z));
    }
  }
}
