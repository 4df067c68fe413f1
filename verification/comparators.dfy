/**
 * The `java.util.Comparator` factories the repository builds its orderings
 * from: `comparingInt(keyExtractor)`, `comparing(keyExtractor)` on a `String`
 * key, and `thenComparing(other)`. Each yields a lawful comparator when its
 * parts are lawful.
 */
module Comparators {
  import opened Comparison
  import JavaInt
  import JavaString

  /** `Comparator.comparingInt(key)`: `Integer.compare` on the extracted keys. */
  function ComparingInt<T(!new)>(key: T -> int): (c: (T, T) -> int)
    ensures forall a, b :: c(a, b) == JavaInt.Compare(key(a), key(b))
  {
    (a: T, b: T) => JavaInt.Compare(key(a), key(b))
  }

  /** `Comparator.comparing(key)` for a `String` key: the keys' natural order, `String.compareTo`. */
  function Comparing<T(!new)>(key: T -> string): (c: (T, T) -> int)
    ensures forall a, b :: c(a, b) == JavaString.CompareTo(key(a), key(b))
  {
    (a: T, b: T) => JavaString.CompareTo(key(a), key(b))
  }

  /** `first.thenComparing(second)`: the first comparator's result unless it is 0, then the second's. */
  function ThenComparing<T(!new)>(first: (T, T) -> int, second: (T, T) -> int): (c: (T, T) -> int)
    ensures forall a, b :: c(a, b) == if first(a, b) != 0 then first(a, b) else second(a, b)
  {
    (a: T, b: T) => if first(a, b) != 0 then first(a, b) else second(a, b)
  }

  /** Ordering by an integer key is a comparator whose zero means "same key". */
  lemma ComparingIntIsComparator<T(!new)>(key: T -> int)
    ensures IsComparator(ComparingInt(key))
    ensures forall a, b :: ComparingInt(key)(a, b) == 0 <==> key(a) == key(b)
    ensures forall a, b :: ComparingInt(key)(a, b) < 0 <==> key(a) < key(b)
  {
    var cmp := ComparingInt(key);
    forall a, b ensures Sign(cmp(a, b)) == -Sign(cmp(b, a)) {
      assert cmp(a, b) == JavaInt.Compare(key(a), key(b));
      assert cmp(b, a) == JavaInt.Compare(key(b), key(a));
    }
    forall a, b, c | cmp(a, b) > 0 && cmp(b, c) > 0 ensures cmp(a, c) > 0 {
      assert key(a) > key(b) > key(c);
    }
    forall a, b, c | cmp(a, b) == 0 ensures Sign(cmp(a, c)) == Sign(cmp(b, c)) {
      assert key(a) == key(b);
    }
  }

  /** Ordering by a string key is a comparator whose zero means "equal strings". */
  lemma ComparingIsComparator<T(!new)>(key: T -> string)
    ensures IsComparator(Comparing(key))
    ensures forall a, b :: Comparing(key)(a, b) == 0 <==> key(a) == key(b)
  {
    var cmp := Comparing(key);
    forall a, b ensures Sign(cmp(a, b)) == -Sign(cmp(b, a)) {
      JavaString.CompareToAntisymmetric(key(a), key(b));
    }
    forall a, b, c | cmp(a, b) > 0 && cmp(b, c) > 0 ensures cmp(a, c) > 0 {
      JavaString.CompareToAntisymmetric(key(a), key(b));
      JavaString.CompareToAntisymmetric(key(b), key(c));
      JavaString.CompareToAntisymmetric(key(a), key(c));
      JavaString.CompareToTransitive(key(c), key(b), key(a));
    }
    forall a, b, c | cmp(a, b) == 0 ensures Sign(cmp(a, c)) == Sign(cmp(b, c)) {
      assert key(a) == key(b);
    }
  }

  /** Breaking the first comparator's ties with a second keeps the comparator contract. */
  lemma ThenComparingIsComparator<T(!new)>(first: (T, T) -> int, second: (T, T) -> int)
    requires IsComparator(first) && IsComparator(second)
    ensures IsComparator(ThenComparing(first, second))
    ensures forall a, b :: ThenComparing(first, second)(a, b) == 0 <==> first(a, b) == 0 && second(a, b) == 0
  {
    var cmp := ThenComparing(first, second);
    forall a, b ensures Sign(cmp(a, b)) == -Sign(cmp(b, a)) {
      assert Sign(first(a, b)) == -Sign(first(b, a));
      assert Sign(second(a, b)) == -Sign(second(b, a));
    }
    forall a, b, c | cmp(a, b) > 0 && cmp(b, c) > 0 ensures cmp(a, c) > 0 {
      ThenComparingTransitive(first, second, a, b, c);
    }
    forall a, b, c | cmp(a, b) == 0 ensures Sign(cmp(a, c)) == Sign(cmp(b, c)) {
      assert first(a, b) == 0 && second(a, b) == 0;
      assert Sign(first(a, c)) == Sign(first(b, c));
      assert Sign(second(a, c)) == Sign(second(b, c));
    }
  }

  lemma ThenComparingTransitive<T(!new)>(first: (T, T) -> int, second: (T, T) -> int, a: T, b: T, c: T)
    requires IsComparator(first) && IsComparator(second)
    requires ThenComparing(first, second)(a, b) > 0 && ThenComparing(first, second)(b, c) > 0
    ensures ThenComparing(first, second)(a, c) > 0
  {
    assert first(a, b) >= 0 && first(b, c) >= 0;
    if first(a, b) > 0 && first(b, c) > 0 {
      assert first(a, c) > 0;
    } else if first(a, b) > 0 {
      assert Sign(first(a, c)) == Sign(first(a, b)) by {
        assert Sign(first(b, a)) == -Sign(first(a, b));
        assert Sign(first(c, b)) == -Sign(first(b, c));
        assert Sign(first(b, a)) == Sign(first(c, a));
        assert Sign(first(a, c)) == -Sign(first(c, a));
      }
    } else if first(b, c) > 0 {
      assert Sign(first(a, c)) == Sign(first(b, c));
    } else {
      assert Sign(first(a, c)) == Sign(first(b, c));
      assert second(a, b) > 0 && second(b, c) > 0;
    }
  }
}
