/**
 * `Person` of `TreeSetWithComparator`, a plain name-and-age record, and the
 * `TreeSet` ordered by the `nameComparator` lambda, which looks at names only.
 */
module TreeSetWithComparator {
  import opened JavaInt
  import opened Comparison
  import JavaString
  import TreeSet
  import Comparators
  import Literals

  datatype Person = Person(name: string, age: Int32)

  /** `nameComparator`: `p1.name.compareTo(p2.name)`; 0 exactly for equal names, whatever the ages. */
  function NameComparator(p1: Person, p2: Person): (r: int)
    ensures r == 0 <==> p1.name == p2.name
    ensures r < 0 <==> JavaString.LexLess(p1.name, p2.name)
  {
    JavaString.CompareToNegativeIffLexLess(p1.name, p2.name);
    JavaString.CompareTo(p1.name, p2.name)
  }

  function GetName(p: Person): string { p.name }

  lemma NameComparatorIsComparator()
    ensures IsComparator(NameComparator)
  {
    Comparators.ComparingIsComparator(GetName);
    assert forall a, b :: NameComparator(a, b) == Comparators.Comparing(GetName)(a, b);
  }

  /** People with pairwise different names: nobody is dropped, and the order of insertion does not matter. */
  lemma DistinctNamesKept(xs: seq<Person>, ys: seq<Person>)
    requires forall i, j :: 0 <= i < j < |xs| ==> xs[i].name != xs[j].name
    requires forall p :: p in xs <==> p in ys
    ensures forall p :: p in TreeSet.FromSeq(xs, NameComparator) <==> p in xs
    ensures TreeSet.FromSeq(xs, NameComparator) == TreeSet.FromSeq(ys, NameComparator)
  {
    NameComparatorIsComparator();
    assert TreeSet.NoTies(xs, NameComparator) by {
      forall i, j | 0 <= i < |xs| && 0 <= j < |xs| && xs[i] != xs[j]
        ensures NameComparator(xs[i], xs[j]) != 0
      {
        if i < j {
          assert xs[i].name != xs[j].name;
        } else if j < i {
          assert xs[j].name != xs[i].name;
        }
      }
    }
    TreeSet.FromSeqMembers(xs, NameComparator);
    TreeSet.InsertionOrderIrrelevant(xs, ys, NameComparator);
  }

  const Alice := Person("Alice", 30)
  const Charlie := Person("Charlie", 28)
  const Bob := Person("Bob", 25)

  /** `main`: adding Alice, Charlie, Bob iterates as Alice, Bob, Charlie, three members. */
  lemma Demo()
    ensures TreeSet.FromSeq([Alice, Charlie, Bob], NameComparator) == [Alice, Bob, Charlie]
  {
    DemoFirstTwo();
    AddBob();
    Literals.Slices3(Alice, Charlie, Bob);
  }

  lemma AddBob()
    ensures TreeSet.Add([Alice, Charlie], Bob, NameComparator) == [Alice, Bob, Charlie]
  {
    assert NameComparator(Bob, Alice) > 0 && NameComparator(Bob, Charlie) < 0;
    Literals.Slices2(Alice, Charlie);
    AddBobBeforeCharlie();
    Literals.Append2(Alice, Bob, Charlie);
  }

  lemma AddBobBeforeCharlie()
    ensures TreeSet.Add([Charlie], Bob, NameComparator) == [Bob, Charlie]
  {
    assert NameComparator(Bob, Charlie) < 0;
    Literals.Append1(Bob, Charlie);
  }

  lemma DemoFirstTwo()
    ensures TreeSet.FromSeq([Alice, Charlie], NameComparator) == [Alice, Charlie]
  {
    Literals.Slices2(Alice, Charlie);
    Literals.Slices1(Alice);
    assert TreeSet.FromSeq([Alice], NameComparator) == [Alice];
    assert NameComparator(Charlie, Alice) > 0;
    Literals.Append1(Alice, Charlie);
    assert TreeSet.Add([Alice], Charlie, NameComparator) == [Alice, Charlie];
  }
}
