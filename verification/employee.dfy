/**
 * `Employee` of `TreeMapExample`: the key class of a `TreeMap`, ordered by id,
 * with `equals` on id and name; and the map its `main` fills.
 */
module TreeMapEmployee {
  import opened JavaInt
  import opened JavaObject
  import opened Comparison
  import JavaString
  import Decimal
  import Render
  import Entries
  import TreeMap
  import Comparators
  import Literals

  datatype Employee = Employee(id: Int32, name: string)

  /** `compareTo`: `Integer.compare` of the ids; the name takes no part. */
  function CompareTo(e: Employee, other: Employee): (r: int)
    ensures r < 0 <==> e.id < other.id
    ensures r == 0 <==> e.id == other.id
    ensures r > 0 <==> e.id > other.id
  {
    Compare(e.id, other.id)
  }

  /** `equals(o)`: an `Employee` with the same id and name. There is no `this == o` shortcut. */
  function Equals(e: Employee, o: Arg<Employee>): (r: bool)
    ensures r <==> o.SameReference? || (o.Instance? && o.value == e)
  {
    match o
    case Null => false
    case OtherClass => false
    case SameReference => e.id == e.id && e.name == e.name
    case Instance(f) => e.id == f.id && e.name == f.name
  }

  /** `hashCode`: `Objects.hash(id, name)`. */
  function HashCode(e: Employee): (h: Int32)
    ensures h == Wrap(961 + 31 * e.id + JavaString.HashCode(e.name))
  {
    ObjectsHashPair(e.id, JavaString.HashCode(e.name));
    ObjectsHash([e.id, JavaString.HashCode(e.name)])
  }

  /** `toString`: `Employee{id=<id>, name='<name>'}`. */
  function ToString(e: Employee): string {
    "Employee{id=" + Decimal.IntToString(e.id) + ", name='" + e.name + "'}"
  }

  lemma ToStringInjective(e: Employee, f: Employee)
    requires ToString(e) == ToString(f)
    ensures e == f
  {
    Render.NumberThenText("Employee{id=", ", name='", "'}", e.id, e.name, f.id, f.name);
  }

  lemma CompareToIsComparator()
    ensures IsComparator(CompareTo)
  {
    Comparators.ComparingIntIsComparator((e: Employee) => e.id as int);
  }

  /** `equals` implies a zero comparison and the same hash code. */
  lemma EqualsConsistent(e: Employee, f: Employee)
    requires Equals(e, Instance(f))
    ensures CompareTo(e, f) == 0 && HashCode(e) == HashCode(f)
  {
  }

  /** The converse fails: the same id under another name compares 0 yet is not `equals`. */
  lemma SameIdNotEqual(e: Employee, f: Employee)
    requires e.id == f.id && e.name != f.name
    ensures CompareTo(e, f) == 0 && !Equals(e, Instance(f))
  {
  }

  /** A map keyed by employees iterates by strictly ascending id. */
  lemma AscendingIds<V>(ps: seq<(Employee, V)>)
    ensures var m := TreeMap.FromSeq(ps, CompareTo);
      forall i, j :: 0 <= i < j < |m| ==> m[i].0.id < m[j].0.id
  {
    CompareToIsComparator();
    TreeMap.FromSeqValid(ps, CompareTo);
    var m := TreeMap.FromSeq(ps, CompareTo);
    forall i, j | 0 <= i < j < |m| ensures m[i].0.id < m[j].0.id {
      assert Entries.Keys(m)[i] == m[i].0 && Entries.Keys(m)[j] == m[j].0;
    }
  }

  const Alice := Employee(102, "Alice")
  const Bob := Employee(101, "Bob")
  const Charlie := Employee(103, "Charlie")

  lemma PutBob()
    ensures TreeMap.Put([(Alice, "HR")], Bob, "Finance", CompareTo) == [(Bob, "Finance"), (Alice, "HR")]
  {
    assert CompareTo(Bob, Alice) < 0;
    Literals.Append1((Bob, "Finance"), (Alice, "HR"));
  }

  lemma PutCharlie()
    ensures TreeMap.Put([(Bob, "Finance"), (Alice, "HR")], Charlie, "IT", CompareTo)
            == [(Bob, "Finance"), (Alice, "HR"), (Charlie, "IT")]
  {
    var m := [(Bob, "Finance"), (Alice, "HR")];
    assert CompareTo(Charlie, Bob) > 0 && CompareTo(Charlie, Alice) > 0;
    Literals.Slices2((Bob, "Finance"), (Alice, "HR"));
    Literals.Slices1((Alice, "HR"));
    Literals.Append1((Alice, "HR"), (Charlie, "IT"));
    Literals.Append2((Bob, "Finance"), (Alice, "HR"), (Charlie, "IT"));
    assert TreeMap.Put([(Alice, "HR")], Charlie, "IT", CompareTo) == [(Alice, "HR"), (Charlie, "IT")];
  }

  /** `main`: Alice 102 → HR, Bob 101 → Finance, Charlie 103 → IT iterate as Bob, Alice, Charlie. */
  lemma Demo()
    ensures TreeMap.FromSeq([(Alice, "HR"), (Bob, "Finance"), (Charlie, "IT")], CompareTo)
            == [(Bob, "Finance"), (Alice, "HR"), (Charlie, "IT")]
  {
    TreeMap.FromSeqSnoc([], (Alice, "HR"), CompareTo);
    Literals.Append1((Alice, "HR"), (Bob, "Finance"));
    TreeMap.FromSeqSnoc([(Alice, "HR")], (Bob, "Finance"), CompareTo);
    PutBob();
    TreeMap.FromSeqSnoc([(Alice, "HR"), (Bob, "Finance")], (Charlie, "IT"), CompareTo);
    Literals.Append2((Alice, "HR"), (Bob, "Finance"), (Charlie, "IT"));
    PutCharlie();
  }
}
