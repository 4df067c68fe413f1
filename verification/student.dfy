/**
 * `Student` of the `comparable` package: a name and an age, naturally ordered
 * by age alone, with value-based `equals`/`hashCode` and a fixed `toString`
 * layout; and the `Collections.sort` of the four students in its `main`.
 */
module ComparableStudent {
  import opened JavaInt
  import opened JavaObject
  import opened Comparison
  import JavaString
  import Decimal
  import Render
  import Sorting
  import Comparators
  import Literals

  datatype Student = Student(name: string, age: Int32)

  /** `compareTo`: `Integer.compare` of the ages; the name takes no part. */
  function CompareTo(s: Student, other: Student): (r: int)
    ensures r < 0 <==> s.age < other.age
    ensures r == 0 <==> s.age == other.age
    ensures r > 0 <==> s.age > other.age
  {
    Compare(s.age, other.age)
  }

  /** `equals(o)`: `o` is a `Student` with the same age and name. There is no `this == o` shortcut; the fields decide. */
  function Equals(s: Student, o: Arg<Student>): (r: bool)
    ensures r <==> o.SameReference? || (o.Instance? && o.value == s)
  {
    match o
    case Null => false
    case OtherClass => false
    case SameReference => s.age == s.age && s.name == s.name
    case Instance(t) => s.age == t.age && s.name == t.name
  }

  /** `hashCode`: `Objects.hash(name, age)`. */
  function HashCode(s: Student): (h: Int32)
    ensures h == Wrap(961 + 31 * JavaString.HashCode(s.name) + s.age)
  {
    ObjectsHashPair(JavaString.HashCode(s.name), s.age);
    ObjectsHash([JavaString.HashCode(s.name), s.age])
  }

  /** `toString`: `Student{name='<name>', age=<age>}`. */
  function ToString(s: Student): string {
    "Student{name='" + s.name + "', age=" + Decimal.IntToString(s.age) + "}"
  }

  /** The natural order is a lawful comparator. */
  lemma CompareToIsComparator()
    ensures IsComparator(CompareTo)
  {
    Comparators.ComparingIntIsComparator((s: Student) => s.age as int);
    assert forall a, b :: CompareTo(a, b) == Comparators.ComparingInt((s: Student) => s.age as int)(a, b);
  }

  /** Equal students compare as 0 and hash alike. */
  lemma EqualsConsistent(s: Student, o: Arg<Student>)
    requires Equals(s, o) && o.Instance?
    ensures CompareTo(s, o.value) == 0
    ensures HashCode(s) == HashCode(o.value)
  {
  }

  /** The order is not consistent with `equals`: two students of one age compare as 0 whatever their names. */
  lemma SameAgeComparesZero(s: Student, t: Student)
    requires s.age == t.age && s.name != t.name
    ensures CompareTo(s, t) == 0
    ensures !Equals(s, Instance(t))
  {
  }

  /** Distinct students print differently: `toString` determines the name and the age. */
  lemma ToStringInjective(s: Student, t: Student)
    requires ToString(s) == ToString(t)
    ensures s == t
  {
    Render.TextThenNumber("Student{name='", "', age=", "}", s.name, s.age, t.name, t.age);
  }

  /**
   * `Collections.sort(students)`: a stable sort by the natural order. The last
   * clause is stability: the students of any one age keep their input order.
   */
  function SortByAge(students: seq<Student>): (r: seq<Student>)
    ensures multiset(r) == multiset(students)
    ensures forall i, j :: 0 <= i < j < |r| ==> r[i].age <= r[j].age
    ensures forall x :: Sorting.Ties(r, x, CompareTo) == Sorting.Ties(students, x, CompareTo)
  {
    CompareToIsComparator();
    Sorting.SortSorted(students, CompareTo);
    Sorting.SortStable(students, CompareTo);
    Sorting.Sort(students, CompareTo)
  }

  const John := Student("John", 20)
  const Alice := Student("Alice", 22)
  const Bob := Student("Bob", 21)
  const Li := Student("Li", 18)

  lemma SortFirstTwo()
    ensures Sorting.Sort([John, Alice], CompareTo) == [John, Alice]
  {
    Sorting.SortSnoc([], John, CompareTo);
    Literals.Append1(John, Alice);
    Sorting.SortSnoc([John], Alice, CompareTo);
    Literals.Slices1(John);
  }

  lemma SortFirstThree()
    ensures Sorting.Sort([John, Alice, Bob], CompareTo) == [John, Bob, Alice]
  {
    SortFirstTwo();
    Sorting.SortSnoc([John, Alice], Bob, CompareTo);
    Literals.Append2(John, Alice, Bob);
    Literals.Slices2(John, Alice);
    Literals.Append1(Bob, Alice);
    Literals.Append2(John, Bob, Alice);
  }

  lemma SortAllFour()
    ensures Sorting.Sort([John, Alice, Bob, Li], CompareTo) == Sorting.Insert(Li, [John, Bob, Alice], CompareTo)
  {
    SortFirstThree();
    Sorting.SortSnoc([John, Alice, Bob], Li, CompareTo);
    Literals.Append3(John, Alice, Bob, Li);
  }

  /** The demonstration: John 20, Alice 22, Bob 21, Li 18 sort to Li, John, Bob, Alice. */
  lemma SortDemo()
    ensures SortByAge([John, Alice, Bob, Li]) == [Li, John, Bob, Alice]
  {
    var xs := [John, Alice, Bob, Li];
    var r := Sorting.Sort(xs, CompareTo);
    assert SortByAge(xs) == r;
    SortAllFour();
    assert CompareTo(Li, John) < 0;
    assert r == [Li] + [John, Bob, Alice];
    Literals.Append3(Li, John, Bob, Alice);
  }
}
