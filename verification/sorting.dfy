/**
 * `List.sort(comparator)` / `Collections.sort(list)`: a stable sort by an
 * `int`-valued comparison. The JDK uses a merge sort; the model is an insertion
 * sort with the same outcome for a valid comparator: the sorted permutation that
 * keeps equal elements in their original order.
 */
module Sorting {
  import opened Comparison

  /** Places `x` after every element of `s` that is not greater than it. */
  function Insert<T>(x: T, s: seq<T>, cmp: (T, T) -> int): (r: seq<T>)
    ensures multiset(r) == multiset(s) + multiset{x}
  {
    if |s| == 0 then [x]
    else if cmp(x, s[0]) < 0 then [x] + s
    else
      assert s == [s[0]] + s[1..];
      [s[0]] + Insert(x, s[1..], cmp)
  }

  /** Sorts by inserting each element, left to right, behind its equals. */
  function Sort<T>(xs: seq<T>, cmp: (T, T) -> int): (r: seq<T>)
    ensures multiset(r) == multiset(xs)
  {
    if |xs| == 0 then []
    else
      assert xs == xs[..|xs| - 1] + [xs[|xs| - 1]];
      Insert(xs[|xs| - 1], Sort(xs[..|xs| - 1], cmp), cmp)
  }

  /** Sorting a list with one more element at the end inserts that element into the sorted prefix. */
  lemma SortSnoc<T>(xs: seq<T>, x: T, cmp: (T, T) -> int)
    ensures Sort(xs + [x], cmp) == Insert(x, Sort(xs, cmp), cmp)
  {
    assert (xs + [x])[..|xs|] == xs;
  }

  /** Inserting behind the head keeps every element at or above the head. */
  lemma InsertAboveHead<T(!new)>(x: T, s: seq<T>, cmp: (T, T) -> int)
    requires Antisymmetric(cmp) && SortedBy(cmp, s)
    requires |s| > 0 && cmp(x, s[0]) >= 0
    ensures forall j :: 0 <= j < |Insert(x, s[1..], cmp)| ==> cmp(s[0], Insert(x, s[1..], cmp)[j]) <= 0
  {
    var t := Insert(x, s[1..], cmp);
    assert Sign(cmp(s[0], x)) == -Sign(cmp(x, s[0]));
    forall j | 0 <= j < |t|
      ensures cmp(s[0], t[j]) <= 0
    {
      assert t[j] in multiset(t);
      if t[j] != x {
        assert t[j] in multiset(s[1..]);
        var k :| 0 <= k < |s[1..]| && s[1..][k] == t[j];
        assert s[k + 1] == t[j];
      }
    }
  }

  lemma {:induction false} InsertSorted<T(!new)>(x: T, s: seq<T>, cmp: (T, T) -> int)
    requires IsComparator(cmp)
    requires SortedBy(cmp, s)
    ensures SortedBy(cmp, Insert(x, s, cmp))
  {
    if |s| > 0 {
      var r := Insert(x, s, cmp);
      if cmp(x, s[0]) < 0 {
        forall j | 0 < j < |r|
          ensures cmp(r[0], r[j]) <= 0
        {
          if j > 1 {
            LessThenAtMost(cmp, x, s[0], s[j - 1]);
          }
        }
      } else {
        var t := Insert(x, s[1..], cmp);
        InsertSorted(x, s[1..], cmp);
        InsertAboveHead(x, s, cmp);
        assert r == [s[0]] + t;
      }
    }
  }

  /** The result is ordered by the comparator. */
  lemma {:induction false} SortSorted<T(!new)>(xs: seq<T>, cmp: (T, T) -> int)
    requires IsComparator(cmp)
    ensures SortedBy(cmp, Sort(xs, cmp))
  {
    if |xs| > 0 {
      SortSorted(xs[..|xs| - 1], cmp);
      InsertSorted(xs[|xs| - 1], Sort(xs[..|xs| - 1], cmp), cmp);
    }
  }

  /** The elements of `s` that compare 0 to `x`, in their order in `s`. */
  function Ties<T>(s: seq<T>, x: T, cmp: (T, T) -> int): seq<T> {
    if |s| == 0 then []
    else (if cmp(s[0], x) == 0 then [s[0]] else []) + Ties(s[1..], x, cmp)
  }

  lemma {:induction false} TiesAppend<T>(s: seq<T>, y: T, x: T, cmp: (T, T) -> int)
    ensures Ties(s + [y], x, cmp) == Ties(s, x, cmp) + (if cmp(y, x) == 0 then [y] else [])
  {
    if |s| > 0 {
      assert (s + [y])[1..] == s[1..] + [y];
      TiesAppend(s[1..], y, x, cmp);
    } else {
      assert [y][1..] == [];
    }
  }

  lemma {:induction false} TiesNone<T>(s: seq<T>, x: T, cmp: (T, T) -> int)
    requires forall j :: 0 <= j < |s| ==> cmp(s[j], x) != 0
    ensures Ties(s, x, cmp) == []
  {
    if |s| > 0 {
      TiesNone(s[1..], x, cmp);
    }
  }

  /** Elements above one that ties with `x` do not tie with `x`. */
  lemma NoTiesAbove<T(!new)>(y: T, s: seq<T>, x: T, cmp: (T, T) -> int)
    requires IsComparator(cmp) && SortedBy(cmp, s)
    requires |s| > 0 && cmp(y, s[0]) < 0 && cmp(y, x) == 0
    ensures Ties(s, x, cmp) == []
  {
    forall j | 0 <= j < |s| ensures cmp(s[j], x) != 0 {
      if j > 0 {
        LessThenAtMost(cmp, y, s[0], s[j]);
      }
      assert Sign(cmp(y, s[j])) == Sign(cmp(x, s[j]));
      assert Sign(cmp(s[j], x)) == -Sign(cmp(x, s[j]));
    }
    TiesNone(s, x, cmp);
  }

  lemma TiesCons<T>(a: T, t: seq<T>, x: T, cmp: (T, T) -> int)
    ensures Ties([a] + t, x, cmp) == (if cmp(a, x) == 0 then [a] else []) + Ties(t, x, cmp)
  {
    assert ([a] + t)[1..] == t;
  }

  /** Inserting `y` into a sorted list puts it behind everything that ties with it. */
  lemma {:induction false} InsertTies<T(!new)>(y: T, s: seq<T>, x: T, cmp: (T, T) -> int)
    requires IsComparator(cmp) && SortedBy(cmp, s)
    ensures Ties(Insert(y, s, cmp), x, cmp) == Ties(s, x, cmp) + (if cmp(y, x) == 0 then [y] else [])
  {
    if |s| == 0 {
      TiesCons(y, [], x, cmp);
    } else if cmp(y, s[0]) < 0 {
      assert Insert(y, s, cmp) == [y] + s;
      TiesCons(y, s, x, cmp);
      if cmp(y, x) == 0 {
        NoTiesAbove(y, s, x, cmp);
      }
    } else {
      var t := Insert(y, s[1..], cmp);
      assert Insert(y, s, cmp) == [s[0]] + t;
      SortedTail(s, cmp);
      InsertTies(y, s[1..], x, cmp);
      TiesCons(s[0], t, x, cmp);
      TiesCons(s[0], s[1..], x, cmp);
      assert [s[0]] + s[1..] == s;
    }
  }

  /**
   * The sort is stable: for every `x`, the elements that compare 0 to `x` come
   * out in the order they went in.
   */
  lemma {:induction false} SortStable<T(!new)>(xs: seq<T>, cmp: (T, T) -> int)
    requires IsComparator(cmp)
    ensures forall x :: Ties(Sort(xs, cmp), x, cmp) == Ties(xs, x, cmp)
  {
    if |xs| > 0 {
      var p, y := xs[..|xs| - 1], xs[|xs| - 1];
      assert xs == p + [y];
      SortStable(p, cmp);
      SortSorted(p, cmp);
      forall x ensures Ties(Sort(xs, cmp), x, cmp) == Ties(xs, x, cmp) {
        InsertTies(y, Sort(p, cmp), x, cmp);
        TiesAppend(p, y, x, cmp);
      }
    }
  }

  /** In a sorted list the head is at most every element. */
  lemma SortedHeadLeast<T(!new)>(r: seq<T>, x: T, cmp: (T, T) -> int)
    requires Antisymmetric(cmp) && SortedBy(cmp, r)
    requires x in r
    ensures cmp(r[0], x) <= 0
  {
    var j :| 0 <= j < |r| && r[j] == x;
    if j == 0 {
      ZeroOnSelf(cmp, x);
    }
  }

  lemma SortedTail<T>(r: seq<T>, cmp: (T, T) -> int)
    requires SortedBy(cmp, r) && |r| > 0
    ensures SortedBy(cmp, r[1..])
  {
    forall i, j | 0 <= i < j < |r[1..]| ensures cmp(r[1..][i], r[1..][j]) <= 0 {
      assert r[1..][i] == r[i + 1] && r[1..][j] == r[j + 1];
    }
  }

  lemma TailMultiset<T>(r1: seq<T>, r2: seq<T>)
    requires |r1| > 0 && |r2| > 0 && r1[0] == r2[0]
    requires multiset(r1) == multiset(r2)
    ensures multiset(r1[1..]) == multiset(r2[1..])
  {
    assert r1 == [r1[0]] + r1[1..] && r2 == [r2[0]] + r2[1..];
    assert multiset(r1) == multiset{r1[0]} + multiset(r1[1..]);
    assert multiset(r2) == multiset{r2[0]} + multiset(r2[1..]);
    assert multiset(r1[1..]) == multiset(r1) - multiset{r1[0]};
    assert multiset(r2[1..]) == multiset(r2) - multiset{r2[0]};
  }

  lemma SortedHeadsEqual<T(!new)>(r1: seq<T>, r2: seq<T>, cmp: (T, T) -> int)
    requires IsComparator(cmp)
    requires forall a, b :: cmp(a, b) == 0 ==> a == b
    requires SortedBy(cmp, r1) && SortedBy(cmp, r2)
    requires |r1| > 0 && |r2| > 0 && multiset(r1) == multiset(r2)
    ensures r1[0] == r2[0]
  {
    var x, y := r1[0], r2[0];
    assert x in multiset(r2) && y in multiset(r1);
    SortedHeadLeast(r2, x, cmp);
    SortedHeadLeast(r1, y, cmp);
    assert Sign(cmp(x, y)) == -Sign(cmp(y, x));
  }

  /**
   * When the comparator ties only equal elements, there is one sorted arrangement
   * of a multiset: any two sorted permutations of each other are the same list.
   */
  lemma {:induction false} SortedUnique<T(!new)>(r1: seq<T>, r2: seq<T>, cmp: (T, T) -> int)
    requires IsComparator(cmp)
    requires forall a, b :: cmp(a, b) == 0 ==> a == b
    requires SortedBy(cmp, r1) && SortedBy(cmp, r2)
    requires multiset(r1) == multiset(r2)
    ensures r1 == r2
    decreases |r1|
  {
    assert |r1| == |r2| by {
      assert |multiset(r1)| == |r1| && |multiset(r2)| == |r2|;
    }
    if |r1| > 0 {
      SortedHeadsEqual(r1, r2, cmp);
      TailMultiset(r1, r2);
      SortedTail(r1, cmp);
      SortedTail(r2, cmp);
      SortedUnique(r1[1..], r2[1..], cmp);
      assert r1 == [r1[0]] + r1[1..] && r2 == [r2[0]] + r2[1..];
    }
  }
}
