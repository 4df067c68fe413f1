/**
 * `TreeSet.add` and `TreeSet.contains` for a set ordered by a comparison
 * function, as a strictly sorted sequence. Membership is decided by the
 * comparison alone: an element that compares 0 to a member is a duplicate,
 * whatever `equals` says, and the member already present stays.
 */
module TreeSet {
  import opened Comparison

  /** `contains(x)`: some member compares 0 to `x`. */
  predicate Contains<T>(s: seq<T>, x: T, cmp: (T, T) -> int) {
    exists i :: 0 <= i < |s| && cmp(s[i], x) == 0
  }

  /** `add(x)`: insert `x` at its place, unless an element comparing 0 is met on the way. */
  function Add<T>(s: seq<T>, x: T, cmp: (T, T) -> int): (r: seq<T>)
    ensures r == s || multiset(r) == multiset(s) + multiset{x}
    ensures forall y :: y in r ==> y in s || y == x
  {
    if |s| == 0 then [x]
    else
      var c := cmp(x, s[0]);
      if c < 0 then [x] + s
      else if c == 0 then s
      else
        assert s == [s[0]] + s[1..];
        [s[0]] + Add(s[1..], x, cmp)
  }

  /** A set built by adding the elements of `xs` in order. */
  function FromSeq<T>(xs: seq<T>, cmp: (T, T) -> int): (r: seq<T>)
    ensures forall y :: y in r ==> y in xs
  {
    if |xs| == 0 then []
    else
      var init := xs[..|xs| - 1];
      var r := Add(FromSeq(init, cmp), xs[|xs| - 1], cmp);
      assert forall y :: y in init ==> y in xs;
      r
  }

  /** Putting below the head an element smaller than it keeps a set strictly sorted. */
  lemma ConsBelowHead<T(!new)>(x: T, s: seq<T>, cmp: (T, T) -> int)
    requires IsComparator(cmp)
    requires StrictlySortedBy(cmp, s) && |s| > 0 && cmp(x, s[0]) < 0
    ensures StrictlySortedBy(cmp, [x] + s)
  {
    var r := [x] + s;
    forall j | 1 < j < |r|
      ensures cmp(x, r[j]) < 0
    {
      LessThenAtMost(cmp, x, s[0], s[j - 1]);
    }
  }

  /** A head below every element of a strictly sorted tail gives a strictly sorted sequence. */
  lemma ConsBelowAll<T>(h: T, t: seq<T>, cmp: (T, T) -> int)
    requires StrictlySortedBy(cmp, t)
    requires forall j :: 0 <= j < |t| ==> cmp(h, t[j]) < 0
    ensures StrictlySortedBy(cmp, [h] + t)
  {
    var r := [h] + t;
    forall i, j | 0 <= i < j < |r|
      ensures cmp(r[i], r[j]) < 0
    {
      assert r[j] == t[j - 1];
      if i > 0 {
        assert r[i] == t[i - 1];
      }
    }
  }

  /** Adding above the head leaves the head below every element of the new tail. */
  lemma HeadBelowAdd<T(!new)>(s: seq<T>, x: T, cmp: (T, T) -> int)
    requires StrictlySortedBy(cmp, s) && |s| > 0 && cmp(s[0], x) < 0
    ensures forall j :: 0 <= j < |Add(s[1..], x, cmp)| ==> cmp(s[0], Add(s[1..], x, cmp)[j]) < 0
  {
    var t := Add(s[1..], x, cmp);
    forall j | 0 <= j < |t|
      ensures cmp(s[0], t[j]) < 0
    {
      assert t[j] in t;
      if t[j] != x {
        var k :| 0 <= k < |s[1..]| && s[1..][k] == t[j];
        assert s[k + 1] == t[j];
      }
    }
  }

  lemma {:induction false} AddStrictlySorted<T(!new)>(s: seq<T>, x: T, cmp: (T, T) -> int)
    requires IsComparator(cmp)
    requires StrictlySortedBy(cmp, s)
    ensures StrictlySortedBy(cmp, Add(s, x, cmp))
  {
    if |s| > 0 {
      var c := cmp(x, s[0]);
      if c < 0 {
        ConsBelowHead(x, s, cmp);
      } else if c > 0 {
        AddStrictlySorted(s[1..], x, cmp);
        assert cmp(s[0], x) < 0 by { assert Sign(cmp(s[0], x)) == -Sign(cmp(x, s[0])); }
        HeadBelowAdd(s, x, cmp);
        ConsBelowAll(s[0], Add(s[1..], x, cmp), cmp);
      }
    }
  }

  lemma {:induction false} FromSeqStrictlySorted<T(!new)>(xs: seq<T>, cmp: (T, T) -> int)
    requires IsComparator(cmp)
    ensures StrictlySortedBy(cmp, FromSeq(xs, cmp))
  {
    if |xs| > 0 {
      FromSeqStrictlySorted(xs[..|xs| - 1], cmp);
      AddStrictlySorted(FromSeq(xs[..|xs| - 1], cmp), xs[|xs| - 1], cmp);
    }
  }

  /** An element below the head of a strictly sorted sequence compares 0 to no member. */
  lemma BelowHeadNotContained<T(!new)>(s: seq<T>, x: T, cmp: (T, T) -> int)
    requires IsComparator(cmp)
    requires StrictlySortedBy(cmp, s) && |s| > 0 && cmp(x, s[0]) < 0
    ensures !Contains(s, x, cmp)
  {
    forall i | 0 <= i < |s|
      ensures cmp(s[i], x) > 0
    {
      if i > 0 {
        LessThenAtMost(cmp, x, s[0], s[i]);
      }
      assert Sign(cmp(s[i], x)) == -Sign(cmp(x, s[i]));
    }
  }

  lemma StrictlySortedTail<T>(s: seq<T>, cmp: (T, T) -> int)
    requires StrictlySortedBy(cmp, s) && |s| > 0
    ensures StrictlySortedBy(cmp, s[1..])
  {
    forall i, j | 0 <= i < j < |s| - 1
      ensures cmp(s[1..][i], s[1..][j]) < 0
    {
      assert s[1..][i] == s[i + 1] && s[1..][j] == s[j + 1];
    }
  }

  /** A head that does not tie with `x` plays no part in membership. */
  lemma ContainsTail<T>(s: seq<T>, x: T, cmp: (T, T) -> int)
    requires |s| > 0 && cmp(s[0], x) != 0
    ensures Contains(s, x, cmp) <==> Contains(s[1..], x, cmp)
  {
    if Contains(s, x, cmp) {
      var i :| 0 <= i < |s| && cmp(s[i], x) == 0;
      assert s[1..][i - 1] == s[i];
    }
    if Contains(s[1..], x, cmp) {
      var i :| 0 <= i < |s[1..]| && cmp(s[1..][i], x) == 0;
      assert s[i + 1] == s[1..][i];
    }
  }

  /** On a well-formed set, `add` of an element that ties with a member changes nothing. */
  lemma {:induction false} AddPresent<T(!new)>(s: seq<T>, x: T, cmp: (T, T) -> int)
    requires IsComparator(cmp)
    requires StrictlySortedBy(cmp, s)
    ensures Contains(s, x, cmp) ==> Add(s, x, cmp) == s
  {
    if |s| > 0 && Contains(s, x, cmp) {
      var c := cmp(x, s[0]);
      if c < 0 {
        BelowHeadNotContained(s, x, cmp);
        assert false;
      } else if c > 0 {
        assert cmp(s[0], x) < 0 by { assert Sign(cmp(s[0], x)) == -Sign(cmp(x, s[0])); }
        ContainsTail(s, x, cmp);
        StrictlySortedTail(s, cmp);
        AddPresent(s[1..], x, cmp);
        assert Add(s, x, cmp) == [s[0]] + s[1..];
        assert s == [s[0]] + s[1..];
      }
    }
  }

  /** `add` of an element that ties with no member puts that element in. */
  lemma {:induction false} AddAbsent<T(!new)>(s: seq<T>, x: T, cmp: (T, T) -> int)
    requires Antisymmetric(cmp)
    ensures !Contains(s, x, cmp) ==> x in Add(s, x, cmp)
  {
    if |s| > 0 && !Contains(s, x, cmp) {
      assert Sign(cmp(s[0], x)) == -Sign(cmp(x, s[0]));
      assert cmp(s[0], x) != 0;
      if cmp(x, s[0]) > 0 {
        ContainsTail(s, x, cmp);
        AddAbsent(s[1..], x, cmp);
      }
    }
  }

  /**
   * On a well-formed set, `add` changes nothing exactly when an element comparing 0
   * is already a member, and otherwise adds `x` itself.
   */
  lemma AddDeduplicates<T(!new)>(s: seq<T>, x: T, cmp: (T, T) -> int)
    requires IsComparator(cmp)
    requires StrictlySortedBy(cmp, s)
    ensures Contains(s, x, cmp) ==> Add(s, x, cmp) == s
    ensures !Contains(s, x, cmp) ==> multiset(Add(s, x, cmp)) == multiset(s) + multiset{x}
  {
    AddPresent(s, x, cmp);
    AddAbsent(s, x, cmp);
    if !Contains(s, x, cmp) {
      ZeroOnSelf(cmp, x);
      assert x !in s;
    }
  }

  lemma SameHead<T(!new)>(s: seq<T>, t: seq<T>, cmp: (T, T) -> int)
    requires Antisymmetric(cmp)
    requires StrictlySortedBy(cmp, s) && StrictlySortedBy(cmp, t)
    requires |s| > 0 && |t| > 0 && t[0] in s && s[0] in t
    ensures s[0] == t[0]
  {
    var i :| 0 <= i < |t| && t[i] == s[0];
    var j :| 0 <= j < |s| && s[j] == t[0];
    ZeroOnSelf(cmp, s[0]);
    ZeroOnSelf(cmp, t[0]);
    assert cmp(s[0], t[0]) <= 0 by { assert cmp(s[0], s[j]) <= 0; }
    assert cmp(t[0], s[0]) <= 0 by { assert cmp(t[0], t[i]) <= 0; }
    assert cmp(s[0], t[0]) == 0 by { assert Sign(cmp(s[0], t[0])) == -Sign(cmp(t[0], s[0])); }
    assert j == 0;
  }

  /** In a strictly sorted sequence the head does not occur again. */
  lemma HeadNotInTail<T(!new)>(s: seq<T>, cmp: (T, T) -> int)
    requires Antisymmetric(cmp)
    requires StrictlySortedBy(cmp, s) && |s| > 0
    ensures forall y :: y in s[1..] <==> y in s && y != s[0]
  {
    ZeroOnSelf(cmp, s[0]);
    forall y | y in s && y != s[0]
      ensures y in s[1..]
    {
      var k :| 0 <= k < |s| && s[k] == y;
      assert s[1..][k - 1] == y;
    }
    forall y | y in s[1..]
      ensures y != s[0]
    {
      var k :| 0 <= k < |s[1..]| && s[1..][k] == y;
      assert cmp(s[0], s[k + 1]) < 0;
    }
  }

  /** Two strictly sorted sequences with the same members are the same sequence. */
  lemma {:induction false} StrictlySortedUnique<T(!new)>(s: seq<T>, t: seq<T>, cmp: (T, T) -> int)
    requires Antisymmetric(cmp)
    requires StrictlySortedBy(cmp, s) && StrictlySortedBy(cmp, t)
    requires forall y :: y in s <==> y in t
    ensures s == t
  {
    assert (|s| > 0) == (|t| > 0) by {
      if |s| > 0 { assert s[0] in s; }
      if |t| > 0 { assert t[0] in t; }
    }
    if |s| > 0 {
      assert t[0] in t && s[0] in s;
      SameHead(s, t, cmp);
      HeadNotInTail(s, cmp);
      HeadNotInTail(t, cmp);
      StrictlySortedUnique(s[1..], t[1..], cmp);
      assert s == [s[0]] + s[1..] && t == [t[0]] + t[1..];
    }
  }

  /** Elements no two of which compare 0 (equal elements aside). */
  ghost predicate NoTies<T>(xs: seq<T>, cmp: (T, T) -> int) {
    forall i, j :: 0 <= i < |xs| && 0 <= j < |xs| && xs[i] != xs[j] ==> cmp(xs[i], xs[j]) != 0
  }

  lemma NoTiesPrefix<T>(xs: seq<T>, cmp: (T, T) -> int)
    requires NoTies(xs, cmp) && |xs| > 0
    ensures NoTies(xs[..|xs| - 1], cmp)
  {
    var init := xs[..|xs| - 1];
    forall i, j | 0 <= i < |init| && 0 <= j < |init| && init[i] != init[j]
      ensures cmp(init[i], init[j]) != 0
    {
      assert init[i] == xs[i] && init[j] == xs[j];
    }
  }

  /** Without ties every element added ends up a member. */
  lemma {:induction false} FromSeqMembers<T(!new)>(xs: seq<T>, cmp: (T, T) -> int)
    requires IsComparator(cmp)
    requires NoTies(xs, cmp)
    ensures forall y :: y in FromSeq(xs, cmp) <==> y in xs
  {
    if |xs| > 0 {
      var init := xs[..|xs| - 1];
      var x := xs[|xs| - 1];
      var s := FromSeq(init, cmp);
      NoTiesPrefix(xs, cmp);
      FromSeqMembers(init, cmp);
      FromSeqStrictlySorted(init, cmp);
      AddDeduplicates(s, x, cmp);
      if x in s {
        var i :| 0 <= i < |s| && s[i] == x;
        ZeroOnSelf(cmp, x);
        assert Contains(s, x, cmp);
      } else {
        NotContainedWithoutTies(xs, s, cmp);
        AddedMembers(s, x, cmp);
      }
      assert xs == init + [x];
    }
  }

  lemma AddedMembers<T(!new)>(s: seq<T>, x: T, cmp: (T, T) -> int)
    requires multiset(Add(s, x, cmp)) == multiset(s) + multiset{x}
    ensures forall y :: y in Add(s, x, cmp) <==> y in s || y == x
  {
    var r := Add(s, x, cmp);
    forall y
      ensures y in r <==> y in s || y == x
    {
      assert y in multiset(r) <==> y in multiset(s) + multiset{x};
    }
  }

  lemma NotContainedWithoutTies<T(!new)>(xs: seq<T>, s: seq<T>, cmp: (T, T) -> int)
    requires NoTies(xs, cmp) && |xs| > 0
    requires forall y :: y in s <==> y in xs[..|xs| - 1]
    requires xs[|xs| - 1] !in s
    ensures !Contains(s, xs[|xs| - 1], cmp)
  {
    var x := xs[|xs| - 1];
    forall i | 0 <= i < |s|
      ensures cmp(s[i], x) != 0
    {
      assert s[i] in s;
      assert s[i] in xs[..|xs| - 1];
      var k :| 0 <= k < |xs| - 1 && xs[..|xs| - 1][k] == s[i];
      assert xs[k] == s[i];
    }
  }

  /** Without ties, the resulting set, and so its iteration order, does not depend on insertion order. */
  lemma InsertionOrderIrrelevant<T(!new)>(xs: seq<T>, ys: seq<T>, cmp: (T, T) -> int)
    requires IsComparator(cmp)
    requires NoTies(xs, cmp)
    requires forall y :: y in xs <==> y in ys
    ensures FromSeq(xs, cmp) == FromSeq(ys, cmp)
  {
    assert NoTies(ys, cmp) by {
      forall i, j | 0 <= i < |ys| && 0 <= j < |ys| && ys[i] != ys[j]
        ensures cmp(ys[i], ys[j]) != 0
      {
        assert ys[i] in xs && ys[j] in xs;
        var a :| 0 <= a < |xs| && xs[a] == ys[i];
        var b :| 0 <= b < |xs| && xs[b] == ys[j];
      }
    }
    FromSeqMembers(xs, cmp);
    FromSeqMembers(ys, cmp);
    FromSeqStrictlySorted(xs, cmp);
    FromSeqStrictlySorted(ys, cmp);
    StrictlySortedUnique(FromSeq(xs, cmp), FromSeq(ys, cmp), cmp);
  }
}
