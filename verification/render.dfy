/**
 * Splitting rendered `toString` text back into its fields. Every rendering in
 * the model glues fixed punctuation, free text and the decimal text of an
 * `int`; since decimal text holds only digits and `-`, the punctuation around
 * the number locates it.
 */
module Render {
  import opened Decimal

  predicate AllNumerals(s: string) {
    forall i :: 0 <= i < |s| ==> IsNumeral(s[i])
  }

  lemma CancelRight(a: string, b: string, t: string)
    requires a + t == b + t
    ensures a == b
  {
    assert a == (a + t)[..|a|];
    assert b == (b + t)[..|b|];
  }

  lemma CancelLeft(t: string, a: string, b: string)
    requires t + a == t + b
    ensures a == b
  {
    assert a == (t + a)[|t|..];
    assert b == (t + b)[|t|..];
  }

  /** Index of the last character that cannot belong to a number, or -1. */
  function LastNonNumeral(s: string): (i: int)
    ensures -1 <= i < |s|
  {
    if |s| == 0 then -1
    else if !IsNumeral(s[|s| - 1]) then |s| - 1
    else LastNonNumeral(s[..|s| - 1])
  }

  /** Index of the first character that cannot belong to a number, or `|s|`. */
  function FirstNonNumeral(s: string): (i: nat)
    ensures i <= |s|
  {
    if |s| == 0 then 0
    else if !IsNumeral(s[0]) then 0
    else 1 + FirstNonNumeral(s[1..])
  }

  lemma {:induction false} LastNonNumeralOf(p: string, d: string)
    requires |p| > 0 && !IsNumeral(p[|p| - 1]) && AllNumerals(d)
    ensures LastNonNumeral(p + d) == |p| - 1
    decreases |d|
  {
    if |d| == 0 {
      assert p + d == p;
    } else {
      var d' := d[..|d| - 1];
      assert (p + d)[..|p + d| - 1] == p + d';
      LastNonNumeralOf(p, d');
    }
  }

  lemma {:induction false} FirstNonNumeralOf(d: string, t: string)
    requires |t| > 0 && !IsNumeral(t[0]) && AllNumerals(d)
    ensures FirstNonNumeral(d + t) == |d|
    decreases |d|
  {
    if |d| == 0 {
      assert d + t == t;
    } else {
      assert (d + t)[1..] == d[1..] + t;
      FirstNonNumeralOf(d[1..], t);
    }
  }

  /**
   * `p1 + d1 == p2 + d2` where both heads end in a non-numeral character and
   * both tails are numerals: the split point is the same.
   */
  lemma NumberAtEnd(p1: string, d1: string, p2: string, d2: string)
    requires |p1| > 0 && |p2| > 0 && !IsNumeral(p1[|p1| - 1]) && !IsNumeral(p2[|p2| - 1])
    requires AllNumerals(d1) && AllNumerals(d2)
    requires p1 + d1 == p2 + d2
    ensures p1 == p2 && d1 == d2
  {
    var s := p1 + d1;
    LastNonNumeralOf(p1, d1);
    LastNonNumeralOf(p2, d2);
    assert p1 == s[..|p1|] && p2 == s[..|p2|];
    assert d1 == s[|p1|..] && d2 == s[|p2|..];
  }

  /** The mirror image: numeral heads followed by tails that start with a non-numeral character. */
  lemma NumberAtStart(d1: string, t1: string, d2: string, t2: string)
    requires |t1| > 0 && |t2| > 0 && !IsNumeral(t1[0]) && !IsNumeral(t2[0])
    requires AllNumerals(d1) && AllNumerals(d2)
    requires d1 + t1 == d2 + t2
    ensures d1 == d2 && t1 == t2
  {
    var s := d1 + t1;
    FirstNonNumeralOf(d1, t1);
    FirstNonNumeralOf(d2, t2);
    assert d1 == s[..|d1|] && d2 == s[..|d2|];
    assert t1 == s[|d1|..] && t2 == s[|d2|..];
  }

  /** `head + text + mid + Integer.toString(n) + tail`, with `mid` ending in a character no number contains, determines `text` and `n`. */
  lemma TextThenNumber(head: string, mid: string, tail: string, x1: string, n1: int, x2: string, n2: int)
    requires |mid| > 0 && !IsNumeral(mid[|mid| - 1])
    requires head + x1 + mid + IntToString(n1) + tail == head + x2 + mid + IntToString(n2) + tail
    ensures x1 == x2 && n1 == n2
  {
    var d1, d2 := IntToString(n1), IntToString(n2);
    assert head + x1 + mid + d1 + tail == (head + x1 + mid) + d1 + tail;
    CancelRight((head + x1 + mid) + d1, (head + x2 + mid) + d2, tail);
    NumberAtEnd(head + x1 + mid, d1, head + x2 + mid, d2);
    CancelRight(head + x1, head + x2, mid);
    CancelLeft(head, x1, x2);
    IntToStringInjective(n1, n2);
  }

  /** `head + Integer.toString(n) + mid + text + tail`, with `mid` starting with a character no number contains, determines `n` and `text`. */
  lemma NumberThenText(head: string, mid: string, tail: string, n1: int, x1: string, n2: int, x2: string)
    requires |mid| > 0 && !IsNumeral(mid[0])
    requires head + IntToString(n1) + mid + x1 + tail == head + IntToString(n2) + mid + x2 + tail
    ensures n1 == n2 && x1 == x2
  {
    var d1, d2 := IntToString(n1), IntToString(n2);
    Regroup(head, d1, mid, x1, tail);
    Regroup(head, d2, mid, x2, tail);
    CancelLeft(head, d1 + (mid + (x1 + tail)), d2 + (mid + (x2 + tail)));
    NumberAtStart(d1, mid + (x1 + tail), d2, mid + (x2 + tail));
    CancelLeft(mid, x1 + tail, x2 + tail);
    CancelRight(x1, x2, tail);
    IntToStringInjective(n1, n2);
  }

  lemma Regroup(a: string, b: string, c: string, d: string, e: string)
    ensures a + b + c + d + e == a + (b + (c + (d + e)))
  {
  }
}
