/** What `java.lang.Object` contributes to the repository's `equals` and `hashCode` overrides. */
module JavaObject {
  import opened JavaInt

  /**
   * The argument of `equals(Object o)` as the receiver sees it: `null`, an object
   * of another class, the receiver itself, or another instance of the receiver's
   * class with the given field values.
   */
  datatype Arg<T> = Null | OtherClass | SameReference | Instance(value: T)

  /** The exact sum `31^n + hs[0]*31^(n-1) + ... + hs[n-1]` that `Objects.hash` reduces modulo 2^32. */
  ghost function PolyHash(hs: seq<int>): int {
    if |hs| == 0 then 1 else 31 * PolyHash(hs[..|hs| - 1]) + hs[|hs| - 1]
  }

  /** `Objects.hash(...)` on the fields' hash codes: `result = 31 * result + h`, starting from 1, narrowed at each step. */
  function ObjectsHash(hs: seq<Int32>): (h: Int32)
    ensures h == Wrap(PolyHash(hs))
  {
    if |hs| == 0 then
      WrapInRange(1);
      1
    else
      var init := hs[..|hs| - 1];
      var prev := ObjectsHash(init);
      WrapMulAddLeft(31, PolyHash(init), hs[|hs| - 1]);
      Wrap(31 * prev + hs[|hs| - 1])
  }

  /** The two-field form used by every class here: `Objects.hash(a, b) == 961 + 31 * a + b`, modulo 2^32. */
  lemma ObjectsHashPair(a: Int32, b: Int32)
    ensures ObjectsHash([a, b]) == Wrap(961 + 31 * a + b)
  {
    assert [a, b][..1] == [a];
    assert [a][..0] == [];
  }
}
