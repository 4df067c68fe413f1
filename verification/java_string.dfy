/**
 * The two `java.lang.String` methods the repository's classes rely on:
 * `compareTo` (natural order of names) and `hashCode` (inside `Objects.hash`).
 * A Java string is a sequence of UTF-16 code units; here it is a `seq<char>`.
 */
module JavaString {
  import opened JavaInt

  /**
   * `a.compareTo(b)`: at the first index where the strings differ, the difference
   * of the two characters; when one is a prefix of the other, the difference of
   * the lengths.
   */
  function CompareTo(a: string, b: string): (r: int)
    ensures r == 0 <==> a == b
    decreases |a|
  {
    if |a| == 0 || |b| == 0 then |a| - |b|
    else if a[0] != b[0] then a[0] as int - b[0] as int
    else
      var r := CompareTo(a[1..], b[1..]);
      assert a == [a[0]] + a[1..] && b == [b[0]] + b[1..];
      r
  }

  /** Reference definition of lexicographic order: first difference decides, else a proper prefix comes first. */
  ghost predicate LexLess(a: string, b: string) {
    || (|a| < |b| && a == b[..|a|])
    || exists k :: 0 <= k < |a| && k < |b| && a[..k] == b[..k] && a[k] < b[k]
  }

  /** `compareTo` is negative exactly when the first string precedes the second lexicographically. */
  lemma {:induction false} CompareToNegativeIffLexLess(a: string, b: string)
    ensures CompareTo(a, b) < 0 <==> LexLess(a, b)
    decreases |a|
  {
    if |a| == 0 || |b| == 0 {
      if |a| == 0 && |b| > 0 {
        assert a == b[..|a|];
      }
    } else if a[0] != b[0] {
      LexLessHeadsDiffer(a, b);
    } else {
      CompareToNegativeIffLexLess(a[1..], b[1..]);
      LexLessSameHead(a, b);
    }
  }

  /** Different first characters decide the order. */
  lemma LexLessHeadsDiffer(a: string, b: string)
    requires |a| > 0 && |b| > 0 && a[0] != b[0]
    ensures LexLess(a, b) <==> a[0] < b[0]
  {
    if a[0] < b[0] {
      assert a[..0] == b[..0];
    } else if LexLess(a, b) && !(|a| < |b| && a == b[..|a|]) {
      var k :| 0 <= k < |a| && k < |b| && a[..k] == b[..k] && a[k] < b[k];
    }
  }

  /** A common first character does not affect the order. */
  lemma LexLessSameHead(a: string, b: string)
    requires |a| > 0 && |b| > 0 && a[0] == b[0]
    ensures LexLess(a, b) <==> LexLess(a[1..], b[1..])
  {
    if LexLess(a[1..], b[1..]) {
      LexLessOfTails(a, b);
    }
    if LexLess(a, b) {
      if |a| < |b| && a == b[..|a|] {
        assert a[1..] == b[1..][..|a[1..]|];
      } else {
        var k :| 0 <= k < |a| && k < |b| && a[..k] == b[..k] && a[k] < b[k];
        assert k > 0;
        assert a[1..][..k - 1] == a[..k][1..];
        assert b[1..][..k - 1] == b[..k][1..];
      }
    }
  }

  lemma LexLessOfTails(a: string, b: string)
    requires |a| > 0 && |b| > 0 && a[0] == b[0]
    requires LexLess(a[1..], b[1..])
    ensures LexLess(a, b)
  {
    if |a[1..]| < |b[1..]| && a[1..] == b[1..][..|a[1..]|] {
      assert a == b[..|a|];
    } else {
      var k :| 0 <= k < |a[1..]| && k < |b[1..]| && a[1..][..k] == b[1..][..k] && a[1..][k] < b[1..][k];
      assert a[..k + 1] == [a[0]] + a[1..][..k];
      assert b[..k + 1] == [b[0]] + b[1..][..k];
    }
  }

  /** Swapping the arguments negates the result exactly, so the signs are antisymmetric. */
  lemma {:induction false} CompareToAntisymmetric(a: string, b: string)
    ensures CompareTo(a, b) == -CompareTo(b, a)
    decreases |a|
  {
    if |a| > 0 && |b| > 0 && a[0] == b[0] {
      CompareToAntisymmetric(a[1..], b[1..]);
    }
  }

  /** Strict precedence is transitive. */
  lemma {:induction false} CompareToTransitive(a: string, b: string, c: string)
    requires CompareTo(a, b) < 0 && CompareTo(b, c) < 0
    ensures CompareTo(a, c) < 0
    decreases |a|
  {
    if |a| > 0 && |b| > 0 && |c| > 0 && a[0] == b[0] && b[0] == c[0] {
      CompareToTransitive(a[1..], b[1..], c[1..]);
    }
  }

  /** A proper prefix sorts first, by the difference of the lengths. */
  lemma {:induction false} ProperPrefixFirst(a: string, b: string)
    requires |a| < |b| && a == b[..|a|]
    ensures CompareTo(a, b) == |a| - |b| < 0
    decreases |a|
  {
    if |a| > 0 {
      assert a[0] == b[0];
      assert a[1..] == b[1..][..|a[1..]|];
      ProperPrefixFirst(a[1..], b[1..]);
    }
  }

  /** The exact polynomial `s[0]*31^(n-1) + ... + s[n-1]` that `String.hashCode` reduces modulo 2^32. */
  ghost function PolyHash(s: string): int {
    if |s| == 0 then 0 else 31 * PolyHash(s[..|s| - 1]) + s[|s| - 1] as int
  }

  /** `s.hashCode()`: Horner's rule `h = 31 * h + c` with every step narrowed to `int`. */
  function HashCode(s: string): (h: Int32)
    ensures h == Wrap(PolyHash(s))
  {
    if |s| == 0 then
      WrapInRange(0);
      0
    else
      var init := s[..|s| - 1];
      var prev := HashCode(init);
      WrapMulAddLeft(31, PolyHash(init), s[|s| - 1] as int);
      Wrap(31 * prev + s[|s| - 1] as int)
  }
}
