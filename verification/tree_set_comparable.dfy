/**
 * `Person` of `TreeSetWithComparable`: ordered by age alone, while `equals`
 * and `hashCode` use name and age; and the natural-order `TreeSet` its `main`
 * fills, where membership follows `compareTo`, not `equals`.
 */
module TreeSetWithComparable {
  import opened JavaInt
  import opened JavaObject
  import opened Comparison
  import JavaString
  import Decimal
  import Render
  import TreeSet
  import Comparators
  import Literals

  datatype Person = Person(name: string, age: Int32)

  /** `compareTo`: `Integer.compare` of the ages. */
  function CompareTo(p: Person, other: Person): (r: int)
    ensures r < 0 <==> p.age < other.age
    ensures r == 0 <==> p.age == other.age
    ensures r > 0 <==> p.age > other.age
  {
    Compare(p.age, other.age)
  }

  /** `equals(o)`: the same reference, or a `Person` with the same age and name. */
  function Equals(p: Person, o: Arg<Person>): (r: bool)
    ensures r <==> o.SameReference? || (o.Instance? && o.value == p)
  {
    if o.SameReference? then true
    else
      match o
      case Instance(q) => p.age == q.age && p.name == q.name
      case _ => false
  }

  /** `hashCode`: `Objects.hash(name, age)`. */
  function HashCode(p: Person): (h: Int32)
    ensures h == Wrap(961 + 31 * JavaString.HashCode(p.name) + p.age)
  {
    ObjectsHashPair(JavaString.HashCode(p.name), p.age);
    ObjectsHash([JavaString.HashCode(p.name), p.age])
  }

  /** `toString`: `<name>: <age>`. */
  function ToString(p: Person): string {
    p.name + ": " + Decimal.IntToString(p.age)
  }

  lemma ToStringInjective(p: Person, q: Person)
    requires ToString(p) == ToString(q)
    ensures p == q
  {
    var dp, dq := Decimal.IntToString(p.age), Decimal.IntToString(q.age);
    assert "" + p.name + ": " + dp + "" == ToString(p);
    assert "" + q.name + ": " + dq + "" == ToString(q);
    Render.TextThenNumber("", ": ", "", p.name, p.age, q.name, q.age);
  }

  lemma CompareToIsComparator()
    ensures IsComparator(CompareTo)
  {
    Comparators.ComparingIntIsComparator((p: Person) => p.age as int);
  }

  /** Equal people compare as 0 and hash alike. */
  lemma EqualsConsistent(p: Person, q: Person)
    requires Equals(p, Instance(q))
    ensures CompareTo(p, q) == 0 && HashCode(p) == HashCode(q)
  {
  }

  /**
   * The set keeps at most one person per age: adding someone whose age is already
   * present leaves the set as it was, even though that person is not `equals` to
   * the member.
   */
  lemma SameAgeNotAdded(s: seq<Person>, p: Person)
    requires StrictlySortedBy(CompareTo, s)
    requires exists i :: 0 <= i < |s| && s[i].age == p.age
    ensures TreeSet.Add(s, p, CompareTo) == s
  {
    CompareToIsComparator();
    var i :| 0 <= i < |s| && s[i].age == p.age;
    assert CompareTo(s[i], p) == 0;
    TreeSet.AddDeduplicates(s, p, CompareTo);
  }

  /** Iteration of any set built this way is by strictly ascending age. */
  lemma AscendingAges(xs: seq<Person>)
    ensures forall i, j :: 0 <= i < j < |TreeSet.FromSeq(xs, CompareTo)| ==>
      TreeSet.FromSeq(xs, CompareTo)[i].age < TreeSet.FromSeq(xs, CompareTo)[j].age
  {
    CompareToIsComparator();
    TreeSet.FromSeqStrictlySorted(xs, CompareTo);
  }

  const Alice := Person("Alice", 30)
  const Bob := Person("Bob", 25)
  const Jane := Person("Jane", 30)
  const Charlie := Person("Charlie", 28)

  /** `main`: Alice 30, Bob 25, Jane 30, Charlie 28 give the set Bob 25, Charlie 28, Alice 30. */
  lemma Demo()
    ensures TreeSet.FromSeq([Alice, Bob, Jane, Charlie], CompareTo) == [Bob, Charlie, Alice]
  {
    DemoFirstThree();
    Literals.Slices4(Alice, Bob, Jane, Charlie);
    assert CompareTo(Charlie, Bob) > 0 && CompareTo(Charlie, Alice) < 0;
    Literals.Slices2(Bob, Alice);
    Literals.Append1(Charlie, Alice);
    assert TreeSet.Add([Alice], Charlie, CompareTo) == [Charlie, Alice];
    Literals.Append2(Bob, Charlie, Alice);
    assert TreeSet.Add([Bob, Alice], Charlie, CompareTo) == [Bob] + [Charlie, Alice];
  }

  /** Jane, as old as Alice, is not added. */
  lemma DemoFirstThree()
    ensures TreeSet.FromSeq([Alice, Bob, Jane], CompareTo) == [Bob, Alice]
  {
    DemoFirstTwo();
    Literals.Slices3(Alice, Bob, Jane);
    assert StrictlySortedBy(CompareTo, [Bob, Alice]);
    assert [Bob, Alice][1].age == Jane.age;
    SameAgeNotAdded([Bob, Alice], Jane);
  }

  lemma DemoFirstTwo()
    ensures TreeSet.FromSeq([Alice, Bob], CompareTo) == [Bob, Alice]
  {
    Literals.Slices2(Alice, Bob);
    Literals.Slices1(Alice);
    assert TreeSet.FromSeq([Alice], CompareTo) == [Alice];
    assert CompareTo(Bob, Alice) < 0;
    Literals.Append1(Bob, Alice);
  }
}
