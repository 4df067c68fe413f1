/**
 * `ObjectClassExample`: the `java.lang.Object` methods a class overrides —
 * `equals`, `hashCode`, `toString` — and `clone`, which `Object.clone`
 * performs as a field-by-field copy into a new object.
 */
module ObjectClassExample {
  import opened JavaInt
  import opened JavaObject
  import JavaString
  import Decimal
  import Render

  datatype Example = Example(name: string, id: Int32)

  /** `equals(obj)`: the same reference, or an instance of this class with the same id and name. */
  function Equals(e: Example, obj: Arg<Example>): (r: bool)
    ensures r <==> obj.SameReference? || (obj.Instance? && obj.value == e)
    ensures obj.Null? || obj.OtherClass? ==> !r
  {
    if obj.SameReference? then true
    else
      match obj
      case Instance(other) => e.id == other.id && e.name == other.name
      case _ => false
  }

  /** `hashCode`: `Objects.hash(name, id)`. */
  function HashCode(e: Example): (h: Int32)
    ensures h == Wrap(961 + 31 * JavaString.HashCode(e.name) + e.id)
  {
    ObjectsHashPair(JavaString.HashCode(e.name), e.id);
    ObjectsHash([JavaString.HashCode(e.name), e.id])
  }

  /** `toString`: `ObjectClassExample{name='<name>', id=<id>}`. */
  function ToString(e: Example): string {
    "ObjectClassExample{name='" + e.name + "', id=" + Decimal.IntToString(e.id) + "}"
  }

  lemma ToStringInjective(e: Example, f: Example)
    requires ToString(e) == ToString(f)
    ensures e == f
  {
    Render.TextThenNumber("ObjectClassExample{name='", "', id=", "}", e.name, e.id, f.name, f.id);
  }

  /** `clone`: a new object whose fields are copies of this one's. */
  function Clone(e: Example): (c: Example)
    ensures Equals(e, Instance(c)) && Equals(c, Instance(e))
    ensures HashCode(c) == HashCode(e) && ToString(c) == ToString(e)
  {
    Example(e.name, e.id)
  }

  /** `equals` is reflexive, symmetric and transitive on instances, and equal objects hash alike. */
  lemma EqualsContract(a: Example, b: Example, c: Example)
    ensures Equals(a, Instance(a))
    ensures Equals(a, Instance(b)) ==> Equals(b, Instance(a))
    ensures Equals(a, Instance(b)) && Equals(b, Instance(c)) ==> Equals(a, Instance(c))
    ensures Equals(a, Instance(b)) ==> HashCode(a) == HashCode(b)
  {
  }

  /** `main`: the clone of John/101 is `equals` to it. */
  lemma Demo()
    ensures var obj1 := Example("John", 101);
      Equals(obj1, Instance(Clone(obj1))) && ToString(obj1) == "ObjectClassExample{name='John', id=101}"
  {
    IdText();
  }

  lemma IdText()
    ensures Decimal.IntToString(101) == "101"
  {
    assert Decimal.NatToString(10) == "10";
    assert Decimal.NatToString(101) == "10" + "1";
  }
}
