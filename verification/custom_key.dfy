/**
 * `CustomKey` of `HashMapExample`: equal by id, with a hash code (`id % 2`)
 * chosen so that unequal keys collide; and the collision demonstration, where
 * a second put of an equal key overwrites the first value.
 */
module HashMapCustomKey {
  import opened Wrappers
  import opened JavaInt
  import opened JavaObject
  import Decimal
  import Render
  import HashMap

  datatype CustomKey = CustomKey(id: Int32)

  /** `equals(o)`: the same reference, or a `CustomKey` with the same id. */
  function Equals(k: CustomKey, o: Arg<CustomKey>): (r: bool)
    ensures r <==> o.SameReference? || (o.Instance? && o.value.id == k.id)
  {
    if o.SameReference? then true
    else
      match o
      case Instance(other) => k.id == other.id
      case _ => false
  }

  /** `hashCode`: `id % 2`, Java's remainder, so -1 for negative odd ids, 0 for even ids and 1 for positive odd ids. */
  function HashCode(k: CustomKey): (h: Int32)
    ensures h == -1 <==> k.id < 0 && k.id % 2 == 1
    ensures h == 0 <==> k.id % 2 == 0
    ensures h == 1 <==> k.id > 0 && k.id % 2 == 1
  {
    var r := Rem(k.id, 2);
    assert r == k.id - Quot(k.id, 2) * 2;
    r
  }

  /** `toString`: `CustomKey{id=<id>}`. */
  function ToString(k: CustomKey): string {
    "CustomKey{id=" + Decimal.IntToString(k.id) + "}"
  }

  lemma ToStringInjective(k: CustomKey, l: CustomKey)
    requires ToString(k) == ToString(l)
    ensures k == l
  {
    var a, b := Decimal.IntToString(k.id), Decimal.IntToString(l.id);
    assert "" + "" + "CustomKey{id=" + a + "}" == ToString(k);
    assert "" + "" + "CustomKey{id=" + b + "}" == ToString(l);
    Render.TextThenNumber("", "CustomKey{id=", "}", "", k.id, "", l.id);
  }

  /** `equals` between two keys, as `HashMap` calls it. */
  function KeyEquals(a: CustomKey, b: CustomKey): bool {
    Equals(a, Instance(b))
  }

  function KeyHash(k: CustomKey): int { HashCode(k) }

  /** `equals` is an equivalence and equal keys hash alike: the keys are lawful `HashMap` keys. */
  lemma KeysLawful()
    ensures HashMap.LawfulKeys(KeyHash, KeyEquals)
    ensures forall a, b :: KeyEquals(a, b) <==> a == b
  {
  }

  /** Unequal keys may share a hash code: ids 1 and 3 collide. */
  lemma OneAndThreeCollide()
    ensures HashCode(CustomKey(1)) == HashCode(CustomKey(3)) == 1
    ensures !Equals(CustomKey(1), Instance(CustomKey(3)))
  {
  }

  /** With lawful keys a collision does not merge entries: a put of another id never disturbs this id. */
  lemma CollisionKeepsEntries(m: seq<(CustomKey, string)>, k: CustomKey, v: string, k': CustomKey)
    requires k.id != k'.id
    ensures HashMap.Get(HashMap.Put(m, k, v, KeyHash, KeyEquals), k', KeyHash, KeyEquals)
            == HashMap.Get(m, k', KeyHash, KeyEquals)
  {
    KeysLawful();
    HashMap.PutGet(m, k, v, k', KeyHash, KeyEquals);
  }

  /** `main`: put 1 → Value1, 2 → Value2, then 1 → OverwrittenValue leaves two entries, 1 mapped to the new value. */
  lemma Demo()
    ensures var m := HashMap.Put(HashMap.Put(HashMap.Put([], CustomKey(1), "Value1", KeyHash, KeyEquals),
                                             CustomKey(2), "Value2", KeyHash, KeyEquals),
                                 CustomKey(1), "OverwrittenValue", KeyHash, KeyEquals);
      m == [(CustomKey(1), "OverwrittenValue"), (CustomKey(2), "Value2")]
  {
    DemoFirstTwo();
    var m2 := [(CustomKey(1), "Value1"), (CustomKey(2), "Value2")];
    assert HashCode(CustomKey(1)) == 1;
    assert HashMap.IndexOf(m2, CustomKey(1), KeyHash, KeyEquals) == Some(0);
  }

  lemma DemoFirstTwo()
    ensures var m := HashMap.Put(HashMap.Put([], CustomKey(1), "Value1", KeyHash, KeyEquals),
                                 CustomKey(2), "Value2", KeyHash, KeyEquals);
      m == [(CustomKey(1), "Value1"), (CustomKey(2), "Value2")]
  {
    var m1 := HashMap.Put([], CustomKey(1), "Value1", KeyHash, KeyEquals);
    assert m1 == [(CustomKey(1), "Value1")];
    assert HashCode(CustomKey(2)) == 0 && HashCode(CustomKey(1)) == 1;
    assert HashMap.IndexOf(m1, CustomKey(2), KeyHash, KeyEquals) == None;
  }
}
