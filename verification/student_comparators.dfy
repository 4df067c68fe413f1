/**
 * `Student` of the `comparator` package (a plain name-and-age record) and the
 * comparators its `main` sorts with: by name (as an anonymous class, as
 * `StudentNameComparator`, as a lambda and as `Comparator.comparing`), by age,
 * and by age, then name, then name length.
 */
module StudentComparators {
  import opened JavaInt
  import opened Comparison
  import JavaString
  import Sorting
  import Comparators

  datatype Student = Student(name: string, age: Int32)

  /**
   * `StudentNameComparator.compare`: `s1.getName().compareTo(s2.getName())`. The
   * anonymous class and the lambda in `main` have this very body.
   */
  function NameCompare(s1: Student, s2: Student): (r: int)
    ensures r == 0 <==> s1.name == s2.name
    ensures r < 0 <==> JavaString.LexLess(s1.name, s2.name)
    ensures r > 0 <==> JavaString.LexLess(s2.name, s1.name)
  {
    JavaString.CompareToNegativeIffLexLess(s1.name, s2.name);
    JavaString.CompareToNegativeIffLexLess(s2.name, s1.name);
    JavaString.CompareToAntisymmetric(s1.name, s2.name);
    JavaString.CompareTo(s1.name, s2.name)
  }

  /** A proper prefix sorts before the longer name, by the length difference. */
  lemma PrefixNameFirst(s1: Student, s2: Student)
    requires |s1.name| < |s2.name| && s1.name == s2.name[..|s1.name|]
    ensures NameCompare(s1, s2) == |s1.name| - |s2.name| < 0
  {
    JavaString.ProperPrefixFirst(s1.name, s2.name);
  }

  /** `Student::getName` and `Student::getAge`, as key extractors. */
  function GetName(s: Student): string { s.name }
  function GetAge(s: Student): int { s.age }

  /** The by-name comparator is lawful, and `Comparator.comparing(Student::getName)` is the same function. */
  lemma NameCompareIsComparator()
    ensures IsComparator(NameCompare)
    ensures forall a, b :: Comparators.Comparing(GetName)(a, b) == NameCompare(a, b)
  {
    Comparators.ComparingIsComparator(GetName);
    assert forall a, b :: Comparators.Comparing(GetName)(a, b) == NameCompare(a, b);
  }

  /** `Comparator.comparingInt(Student::getAge)`: by age alone. */
  lemma ByAgeOrdersByAge()
    ensures IsComparator(Comparators.ComparingInt(GetAge))
    ensures forall a, b :: Comparators.ComparingInt(GetAge)(a, b) < 0 <==> a.age < b.age
    ensures forall a, b :: Comparators.ComparingInt(GetAge)(a, b) == 0 <==> a.age == b.age
  {
    Comparators.ComparingIntIsComparator(GetAge);
  }

  /** `s -> s.getName().length()` */
  function NameLength(s: Student): int { |s.name| }

  /** `comparingInt(Student::getAge).thenComparing(Student::getName).thenComparing(s -> s.getName().length())` */
  function Composite(): (T: (Student, Student) -> int) {
    Comparators.ThenComparing(
      Comparators.ThenComparing(Comparators.ComparingInt(GetAge), Comparators.Comparing(GetName)),
      Comparators.ComparingInt(NameLength))
  }

  /** Reference order: lexicographic on (age, name). */
  function AgeThenName(a: Student, b: Student): int {
    if a.age != b.age then Compare(a.age, b.age) else JavaString.CompareTo(a.name, b.name)
  }

  /**
   * The length tie-break never decides: once the names compare 0 they are equal,
   * so their lengths are too, and the composite is the (age, name) order.
   */
  lemma CompositeIsAgeThenName()
    ensures forall a, b :: Composite()(a, b) == AgeThenName(a, b)
  {
    forall a, b ensures Composite()(a, b) == AgeThenName(a, b) {
      var byAge := Comparators.ComparingInt(GetAge)(a, b);
      var byName := Comparators.Comparing(GetName)(a, b);
      var byLength := Comparators.ComparingInt(NameLength)(a, b);
      var ageName := Comparators.ThenComparing(Comparators.ComparingInt(GetAge), Comparators.Comparing(GetName))(a, b);
      assert byAge == Compare(a.age, b.age);
      assert byName == JavaString.CompareTo(a.name, b.name);
      assert ageName == if byAge != 0 then byAge else byName;
      assert Composite()(a, b) == if ageName != 0 then ageName else byLength;
      if ageName == 0 {
        assert a.name == b.name;
        assert byLength == 0;
      }
    }
  }

  /** The composite is a lawful comparator that ties only identical students. */
  lemma CompositeIsComparator()
    ensures IsComparator(Composite())
    ensures forall a, b :: Composite()(a, b) == 0 <==> a == b
  {
    Comparators.ComparingIntIsComparator(GetAge);
    Comparators.ComparingIsComparator(GetName);
    Comparators.ComparingIntIsComparator(NameLength);
    var ageName := Comparators.ThenComparing(Comparators.ComparingInt(GetAge), Comparators.Comparing(GetName));
    Comparators.ThenComparingIsComparator(Comparators.ComparingInt(GetAge), Comparators.Comparing(GetName));
    Comparators.ThenComparingIsComparator(ageName, Comparators.ComparingInt(NameLength));
  }

  /** The six successive `students.sort(...)` calls of `main`. */
  function SortAsMain(students: seq<Student>): (r: seq<Student>)
    ensures multiset(r) == multiset(students)
    ensures SortedBy(Composite(), r)
  {
    var byName := Sorting.Sort(students, NameCompare);
    var again := Sorting.Sort(Sorting.Sort(Sorting.Sort(byName, NameCompare), NameCompare), Comparators.Comparing(GetName));
    var byAge := Sorting.Sort(again, Comparators.ComparingInt(GetAge));
    CompositeIsComparator();
    Sorting.SortSorted(byAge, Composite());
    Sorting.Sort(byAge, Composite())
  }

  const John := Student("John", 20)
  const Alice := Student("Alice", 22)
  const Bob := Student("Bob", 21)
  const Li := Student("Li", 18)

  lemma ExpectedSorted()
    ensures SortedBy(Composite(), [Li, John, Bob, Alice])
  {
    CompositeIsAgeThenName();
  }

  /** Whatever the starting order, `main`'s sorts end in the one arrangement of those students that the composite order sorts. */
  lemma SortAsMainOfPermutation(xs: seq<Student>, ys: seq<Student>)
    requires multiset(xs) == multiset(ys) && SortedBy(Composite(), ys)
    ensures SortAsMain(xs) == ys
  {
    CompositeIsComparator();
    Sorting.SortedUnique(SortAsMain(xs), ys, Composite());
  }

  /** The list `main` prints last: Li 18, John 20, Bob 21, Alice 22. */
  lemma MainResult()
    ensures SortAsMain([John, Alice, Bob, Li]) == [Li, John, Bob, Alice]
  {
    ExpectedSorted();
    MainPermutation();
    SortAsMainOfPermutation([John, Alice, Bob, Li], [Li, John, Bob, Alice]);
  }

  lemma MainPermutation()
    ensures multiset([John, Alice, Bob, Li]) == multiset([Li, John, Bob, Alice])
  {
  }
}
