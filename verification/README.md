# Interview-prep Java examples: the sequential cores in Dafny

This project models the parts of the `core-java` interview-preparation examples that make their own decisions, and proves what those parts promise. The thread demonstrations are not modelled: what they show is JVM scheduling.

- **LRU cache.** `LRUCache` is a `LinkedHashMap` in access order whose `removeEldestEntry` answers `size() > capacity`. It is modelled as a sequence of key/value pairs, eldest first, with a fixed capacity. `Put` and `Get` are pure functions (`lru_cache.dfy`).
- **Orderings and equality contracts.** These are the repository's own `compareTo`, `compare`, `equals`, `hashCode` and `toString`, written as functions on record datatypes:
  - `Student` by age and `Student` by name;
  - the composite age → name → length comparator;
  - `Person` by age and `Person` by name;
  - `Employee` by id;
  - the colliding `CustomKey`;
  - `ObjectClassExample`.
- **JDK behaviour these classes rely on.** Each is written out once:
  - Java `int` arithmetic (`java_int.dfy`);
  - `String.compareTo` and `String.hashCode` (`java_string.dfy`);
  - `Objects.hash` (`java_object.dfy`);
  - the `Comparator` factories (`comparators.dfy`);
  - a stable sort (`sorting.dfy`);
  - `TreeSet`, `TreeMap` and `HashMap` (`tree_set.dfy`, `tree_map.dfy`, `hash_map.dfy`).
- **Validators that throw.** `checkAge`, `validateAge` and `BankAccount.withdraw` return a `Result`/`Outcome` instead of throwing.
- **`int` helpers.** `Calculator.add`, `StaticMethod.add` and `Vehicle.calculateSpeed` follow the Java Language Specification: addition wraps to 32 bits (section 15.18.2), and division truncates toward zero and throws on a zero divisor (section 15.17.2).
- **Small object state.**
  - The immutable `Person` uses defensive copies: a `class` with a mutable list object.
  - The construction counters are a state value threaded through the constructions. They are Java `int`s, so `counter++` wraps from 2^31 - 1 to -2^31 (section 15.14.2 of the Java Language Specification).

An argument of `equals(Object o)` is an `Arg<T>`:
- `Null`;
- `OtherClass`, an object of another class;
- `SameReference`, this very object;
- `Instance(t)`, another object of this class with field values `t`.

A comparator is lawful (`Comparison.IsComparator`) when it meets the three clauses of `java.util.Comparator`: sign antisymmetry, transitivity, and "compares 0 ⇒ compares alike to everything".

## Model

| member | source | states |
|---|---|---|
| JavaInt.Wrap | core-java/src/main/java/com/interviewprep/oop_concepts/polymorphism/method_overloading/MethodOverloadingExample.java:5-7 | The result is the one Java `int` congruent to the exact value modulo 2^32, i.e. the narrowing of section 15.18.2 |
| JavaInt.WrapAddLeft | core-java/src/main/java/com/interviewprep/oop_concepts/polymorphism/method_overloading/MethodOverloadingExample.java:13-15 | Narrowing an intermediate sum before adding more does not change the narrowed final result |
| JavaInt.Add | core-java/src/main/java/com/interviewprep/oop_concepts/polymorphism/method_overloading/MethodOverloadingExample.java:5-7 | Java `int` `+`: congruent to the exact sum modulo 2^32, and equal to it whenever the exact sum fits in an `int` |
| JavaInt.Increment | core-java/src/main/java/com/interviewprep/java_basics/static_variables/StaticVariables.java:12 | Java `x++` on an `int`: x + 1 reduced modulo 2^32, which is x + 1 below `MAX` and `MIN` at `MAX` |
| JavaInt.Compare | core-java/src/main/java/com/interviewprep/java_collections_framework/comparable/Student.java:49-51 | `Integer.compare` returns -1, 0 or 1; it is negative exactly when x < y and zero exactly when x == y |
| JavaInt.Quot | core-java/src/main/java/com/interviewprep/oop_concepts/abstraction/default_and_static_method_interface/Main.java:12-14 | Truncating quotient: its magnitude is the floor of the magnitudes' quotient, and it is positive only when the operands share a sign and negative only when their signs differ |
| JavaInt.Rem | core-java/src/main/java/com/interviewprep/java_collections_framework/map/hashmap/HashMapExample.java:77-80 | Java `%`: quotient × divisor + remainder gives back the dividend, the remainder is smaller in magnitude than the divisor, and it carries the dividend's sign (section 15.17.3) |
| JavaInt.RemIsSignedModulus | core-java/src/main/java/com/interviewprep/java_collections_framework/map/hashmap/HashMapExample.java:79 | What truncating division leaves over is the remainder of the magnitudes, with the dividend's sign |
| JavaInt.Div | core-java/src/main/java/com/interviewprep/oop_concepts/abstraction/default_and_static_method_interface/Main.java:12-14 | `int` division throws `ArithmeticException("/ by zero")` exactly when the divisor is 0; `MIN_VALUE / -1` gives `MIN_VALUE`; otherwise the result is the truncating quotient |
| JavaInt.QuotInRange | core-java/src/main/java/com/interviewprep/oop_concepts/abstraction/default_and_static_method_interface/Main.java:13 | Apart from `MIN_VALUE / -1`, the quotient of two `int`s is an `int` |
| JavaInt.TruncationDiffersFromEuclid | core-java/src/main/java/com/interviewprep/oop_concepts/abstraction/default_and_static_method_interface/Main.java:13 | Java gives -7 / 2 == -3 and -7 % 2 == -1, where Euclidean division gives -4 and 1 |
| JavaString.CompareTo | core-java/src/main/java/com/interviewprep/java_collections_framework/comparator/StudentNameComparator.java:14-17 | `String.compareTo` is 0 exactly for equal strings |
| JavaString.CompareToNegativeIffLexLess | core-java/src/main/java/com/interviewprep/java_collections_framework/comparator/StudentNameComparator.java:16 | `compareTo` is negative exactly when the first string precedes the second in the reference lexicographic order: the first differing character decides, otherwise a proper prefix comes first |
| JavaString.CompareToAntisymmetric | core-java/src/main/java/com/interviewprep/java_collections_framework/comparator/StudentNameComparator.java:14-17 | Swapping the two strings negates the result |
| JavaString.CompareToTransitive | core-java/src/main/java/com/interviewprep/java_collections_framework/comparator/StudentNameComparator.java:14-17 | Strict precedence by `compareTo` is transitive |
| JavaString.ProperPrefixFirst | core-java/src/main/java/com/interviewprep/java_collections_framework/comparator/StudentNameComparator.java:16 | A proper prefix compares as the (negative) difference of the lengths |
| JavaString.HashCode | core-java/src/main/java/com/interviewprep/java_collections_framework/comparable/Student.java:37-40 | `String.hashCode` (Horner's rule, narrowing each step) equals the full polynomial s[0]·31^(n-1) + … + s[n-1] narrowed once |
| JavaObject.ObjectsHash | core-java/src/main/java/com/interviewprep/java_collections_framework/comparable/Student.java:37-40 | `Objects.hash` on field hashes, narrowing each step, equals 31^n + Σ h_i·31^(n-1-i) narrowed once |
| JavaObject.ObjectsHashPair | core-java/src/main/java/com/interviewprep/java_collections_framework/comparable/Student.java:39 | `Objects.hash(a, b)` is 961 + 31·a + b modulo 2^32 |
| Decimal.IntToString | core-java/src/main/java/com/interviewprep/java_collections_framework/comparable/Student.java:22-28 | `Integer.toString` yields non-empty text made only of a minus sign and digits |
| Decimal.ParseIntToString | core-java/src/main/java/com/interviewprep/java_collections_framework/comparable/Student.java:22-28 | Reading back the decimal text of any integer gives that integer (round trip) |
| Decimal.IntToStringInjective | core-java/src/main/java/com/interviewprep/java_collections_framework/comparable/Student.java:22-28 | Distinct integers render as distinct text |
| Comparators.ComparingIntIsComparator | core-java/src/main/java/com/interviewprep/java_collections_framework/comparator/Main.java:37 | `comparingInt(key)` is a lawful comparator; it is 0 exactly for equal keys and negative exactly for a smaller key |
| Comparators.ComparingIsComparator | core-java/src/main/java/com/interviewprep/java_collections_framework/comparator/Main.java:34 | `comparing(key)` on a `String` key is a lawful comparator that is 0 exactly for equal keys |
| Comparators.ThenComparingIsComparator | core-java/src/main/java/com/interviewprep/java_collections_framework/comparator/Main.java:40-42 | `thenComparing` of two lawful comparators is lawful, and it ties exactly when both tie |
| Sorting.Sort | core-java/src/main/java/com/interviewprep/java_collections_framework/comparable/Main.java:21 | The sort returns a permutation of its input; `Sorting.SortSorted` and `Sorting.SortStable` add that it is sorted and stable |
| Sorting.SortStable | core-java/src/main/java/com/interviewprep/java_collections_framework/comparable/Main.java:21 | The sort is stable: for a lawful comparator and every x, the elements comparing equal to x come out in the order they went in |
| Sorting.InsertTies | core-java/src/main/java/com/interviewprep/java_collections_framework/comparable/Main.java:21 | Inserting into a sorted list places the new element behind every element that compares equal to it, leaving their order alone |
| Sorting.InsertSorted | core-java/src/main/java/com/interviewprep/java_collections_framework/comparable/Main.java:21 | Inserting into a list sorted by a lawful comparator keeps it sorted |
| Sorting.SortSorted | core-java/src/main/java/com/interviewprep/java_collections_framework/comparable/Main.java:21 | With a lawful comparator the result is sorted |
| Sorting.SortedUnique | core-java/src/main/java/com/interviewprep/java_collections_framework/comparator/Main.java:40-45 | If the comparator ties only equal elements, any two sorted permutations of one list are identical |
| TreeSet.Add | core-java/src/main/java/com/interviewprep/java_collections_framework/set/treeset/with_comparable/TreeSetWithComparable.java:44-47 | `add` either leaves the set unchanged or adds exactly the new element; nothing else ever enters |
| TreeSet.AddStrictlySorted | core-java/src/main/java/com/interviewprep/java_collections_framework/set/treeset/with_comparable/TreeSetWithComparable.java:42-49 | With a lawful comparator, `add` keeps the set in strictly ascending order |
| TreeSet.AddPresent | core-java/src/main/java/com/interviewprep/java_collections_framework/set/treeset/with_comparable/TreeSetWithComparable.java:46 | On a well-formed set, adding an element that compares 0 to a member changes nothing |
| TreeSet.AddAbsent | core-java/src/main/java/com/interviewprep/java_collections_framework/set/treeset/with_comparable/TreeSetWithComparable.java:44-47 | Adding an element that compares 0 to no member puts that very element in |
| TreeSet.AddDeduplicates | core-java/src/main/java/com/interviewprep/java_collections_framework/set/treeset/with_comparable/TreeSetWithComparable.java:44-47 | On a well-formed set: a tie with a member means no change; otherwise the contents grow by exactly the new element |
| TreeSet.FromSeqStrictlySorted | core-java/src/main/java/com/interviewprep/java_collections_framework/set/treeset/with_comparable/TreeSetWithComparable.java:42-49 | A set built by successive adds iterates in strictly ascending order |
| TreeSet.FromSeqMembers | core-java/src/main/java/com/interviewprep/java_collections_framework/set/treeset/with_comparator/TreeSetWithComparator.java:26-30 | When no two added elements tie, the set holds exactly the added elements |
| TreeSet.StrictlySortedUnique | core-java/src/main/java/com/interviewprep/java_collections_framework/set/treeset/with_comparator/TreeSetWithComparator.java:26-32 | Two strictly ascending sequences with the same members are the same sequence |
| TreeSet.InsertionOrderIrrelevant | core-java/src/main/java/com/interviewprep/java_collections_framework/set/treeset/with_comparator/TreeSetWithComparator.java:26-32 | When no two elements tie, the resulting set (and so its iteration order) does not depend on the insertion order |
| TreeMap.Get | core-java/src/main/java/com/interviewprep/java_collections_framework/map/treemap/TreeMapExample.java:49-54 | `get` finds a value exactly when some stored key compares 0 to the probe |
| TreeMap.Put | core-java/src/main/java/com/interviewprep/java_collections_framework/map/treemap/TreeMapExample.java:49-52 | `put` grows the map by at most one entry; every entry afterwards was there before or carries the new value; every key afterwards was stored before or is the new key |
| TreeMap.PutValid | core-java/src/main/java/com/interviewprep/java_collections_framework/map/treemap/TreeMapExample.java:49-52 | With a lawful comparator, `put` keeps the keys strictly ascending |
| TreeMap.PutGet | core-java/src/main/java/com/interviewprep/java_collections_framework/map/treemap/TreeMapExample.java:49-52 | After `put(k, v)`, every key comparing 0 to k maps to v and every other key maps to what it did before |
| TreeMap.PutKeepsStoredKey | core-java/src/main/java/com/interviewprep/java_collections_framework/map/treemap/TreeMapExample.java:49-52 | On a tie, `put` keeps the stored key object and replaces only the value |
| TreeMap.FromSeqValid | core-java/src/main/java/com/interviewprep/java_collections_framework/map/treemap/TreeMapExample.java:49-54 | A map built by successive puts has strictly ascending keys |
| HashMap.IndexOf | core-java/src/main/java/com/interviewprep/java_collections_framework/map/hashmap/HashMapExample.java:49-53 | Returns the first entry whose key matches (equal hash codes, then `equals`), or none exactly when no entry matches |
| HashMap.Get | core-java/src/main/java/com/interviewprep/java_collections_framework/map/hashmap/HashMapExample.java:49-57 | `get` finds a value exactly when some stored key matches the probe |
| HashMap.Put | core-java/src/main/java/com/interviewprep/java_collections_framework/map/hashmap/HashMapExample.java:51-53 | `put` of a matching key keeps the size; otherwise it adds one entry; existing keys keep their positions and key objects |
| HashMap.PutGet | core-java/src/main/java/com/interviewprep/java_collections_framework/map/hashmap/HashMapExample.java:51-53 | With lawful keys, after `put(k, v)` every key equal to k finds v and every other key finds what it found before |
| LruCache.Lookup | core-java/src/main/java/com/interviewprep/java_collections_framework/map/linkedhashmap/LRUCacheExample.java:9-16 | A key has a value exactly when it is present |
| LruCache.New | core-java/src/main/java/com/interviewprep/java_collections_framework/map/linkedhashmap/LRUCacheExample.java:13-16 | The constructor throws `IllegalArgumentException` exactly for a negative capacity; otherwise the cache is empty and well formed, and keeps the given capacity |
| LruCache.Get | core-java/src/main/java/com/interviewprep/java_collections_framework/map/linkedhashmap/LRUCacheExample.java:13-16 | `get` returns the stored value and never changes the capacity or any mapping. A miss changes nothing; a hit moves the key to the most recently used end and leaves the recency order of every other key as it was |
| LruCache.GetValid | core-java/src/main/java/com/interviewprep/java_collections_framework/map/linkedhashmap/LRUCacheExample.java:13-16 | `get` keeps the cache well formed and its size unchanged |
| LruCache.Put | core-java/src/main/java/com/interviewprep/java_collections_framework/map/linkedhashmap/LRUCacheExample.java:13-22 | `put` returns the previous value and keeps the capacity, which is never changed after construction |
| LruCache.PutValid | core-java/src/main/java/com/interviewprep/java_collections_framework/map/linkedhashmap/LRUCacheExample.java:18-22 | After every `put` the keys are distinct and the number of entries is at most the capacity |
| LruCache.PutExistingKey | core-java/src/main/java/com/interviewprep/java_collections_framework/map/linkedhashmap/LRUCacheExample.java:13-22 | `put` of a present key replaces its value and makes it most recently used. Nothing is evicted, every other mapping is kept, and the other entries keep their order |
| LruCache.PutNewKeyWithRoom | core-java/src/main/java/com/interviewprep/java_collections_framework/map/linkedhashmap/LRUCacheExample.java:18-22 | Putting a new key into a cache with room appends it as most recently used, leaves every older entry and its mapping in their recency order and evicts nothing |
| LruCache.PutNewKeyWhenFull | core-java/src/main/java/com/interviewprep/java_collections_framework/map/linkedhashmap/LRUCacheExample.java:18-22 | `put` of a new key into a full cache evicts exactly the least recently used entry, keeps every other mapping in order and appends the new one |
| LruCache.ZeroCapacityStaysEmpty | core-java/src/main/java/com/interviewprep/java_collections_framework/map/linkedhashmap/LRUCacheExample.java:18-22 | A cache of capacity 0 stays empty after any `put` |
| LruCache.EqualsIffSameContents | core-java/src/main/java/com/interviewprep/java_collections_framework/map/linkedhashmap/LRUCacheExample.java:24-30 | Two well-formed caches are equal exactly when their capacities are equal and they hold the same mappings, whatever their recency order |
| LruCache.WalkGetsAnswers | core-java/src/main/java/com/interviewprep/java_collections_framework/map/linkedhashmap/LRUCacheExample.java:27 | The `get` walk of `super.equals` keeps every mapping of the argument. It succeeds exactly when the argument maps each key of this cache to the same value |
| LruCache.EqualsAsWritten | core-java/src/main/java/com/interviewprep/java_collections_framework/map/linkedhashmap/LRUCacheExample.java:24-30 | The written `equals`: `null` and other classes give false, the receiver itself gives true, and another cache gives the intended verdict and keeps its mappings, in some order |
| LruCache.EqualsAsWrittenReordersArgument | core-java/src/main/java/com/interviewprep/java_collections_framework/map/linkedhashmap/LRUCacheExample.java:24-30 | After `a.equals(b)` on equal caches, b's recency order has changed, so b's next `put` evicts a different key |
| LruCache.DemoFill | core-java/src/main/java/com/interviewprep/java_collections_framework/map/linkedhashmap/LRUCacheExample.java:40-45 | A cache of capacity 3 after puts of 1, 2 and 3 holds them in that order |
| LruCache.DemoGet | core-java/src/main/java/com/interviewprep/java_collections_framework/map/linkedhashmap/LRUCacheExample.java:49 | `get(1)` returns "One" and leaves the recency order 2, 3, 1 |
| LruCache.DemoEvict | core-java/src/main/java/com/interviewprep/java_collections_framework/map/linkedhashmap/LRUCacheExample.java:53-57 | `put(4)` evicts 2, leaving keys 3, 1, 4; then `put(5)` evicts 3, leaving 1, 4, 5 |
| ComparableStudent.CompareTo | core-java/src/main/java/com/interviewprep/java_collections_framework/comparable/Student.java:48-51 | The sign of `compareTo` is the sign of the age difference; the name plays no part |
| ComparableStudent.Equals | core-java/src/main/java/com/interviewprep/java_collections_framework/comparable/Student.java:30-35 | `equals` holds exactly for the same reference or a `Student` with equal name and age; null and other classes give false |
| ComparableStudent.HashCode | core-java/src/main/java/com/interviewprep/java_collections_framework/comparable/Student.java:37-40 | `hashCode` is 961 + 31·name.hashCode() + age modulo 2^32 |
| ComparableStudent.CompareToIsComparator | core-java/src/main/java/com/interviewprep/java_collections_framework/comparable/Student.java:48-51 | The natural order is lawful (sign antisymmetry, transitivity) |
| ComparableStudent.EqualsConsistent | core-java/src/main/java/com/interviewprep/java_collections_framework/comparable/Student.java:30-51 | Equal students compare as 0 and have the same hash code |
| ComparableStudent.SameAgeComparesZero | core-java/src/main/java/com/interviewprep/java_collections_framework/comparable/Student.java:30-51 | Students of one age compare as 0 even when their names differ and `equals` is false |
| ComparableStudent.ToStringInjective | core-java/src/main/java/com/interviewprep/java_collections_framework/comparable/Student.java:22-28 | The rendering `Student{name='…', age=…}` determines the name and the age |
| ComparableStudent.SortByAge | core-java/src/main/java/com/interviewprep/java_collections_framework/comparable/Main.java:21 | `Collections.sort` returns a permutation of the students with ages in non-decreasing order, and students of the same age keep their input order |
| ComparableStudent.SortDemo | core-java/src/main/java/com/interviewprep/java_collections_framework/comparable/Main.java:10-21 | John 20, Alice 22, Bob 21, Li 18 sort to Li, John, Bob, Alice |
| StudentComparators.NameCompare | core-java/src/main/java/com/interviewprep/java_collections_framework/comparator/StudentNameComparator.java:14-17 | The by-name comparator is 0 exactly for equal names and negative exactly when s1's name precedes s2's lexicographically; the age plays no part |
| StudentComparators.PrefixNameFirst | core-java/src/main/java/com/interviewprep/java_collections_framework/comparator/StudentNameComparator.java:16 | A name that is a proper prefix of another sorts first, by the length difference |
| StudentComparators.NameCompareIsComparator | core-java/src/main/java/com/interviewprep/java_collections_framework/comparator/Main.java:19-34 | The by-name comparator is lawful, and `Comparator.comparing(Student::getName)` is the same function |
| StudentComparators.ByAgeOrdersByAge | core-java/src/main/java/com/interviewprep/java_collections_framework/comparator/Main.java:37 | `comparingInt(Student::getAge)` is lawful and orders by age alone |
| StudentComparators.CompositeIsAgeThenName | core-java/src/main/java/com/interviewprep/java_collections_framework/comparator/Main.java:40-42 | The age → name → length comparator equals the reference lexicographic order on (age, name): the length tie-break never decides |
| StudentComparators.CompositeIsComparator | core-java/src/main/java/com/interviewprep/java_collections_framework/comparator/Main.java:40-42 | The composite comparator is lawful and ties only identical students |
| StudentComparators.SortAsMain | core-java/src/main/java/com/interviewprep/java_collections_framework/comparator/Main.java:19-42 | The six successive sorts return a permutation of the input, sorted by the composite order |
| StudentComparators.SortAsMainOfPermutation | core-java/src/main/java/com/interviewprep/java_collections_framework/comparator/Main.java:19-42 | Whatever the starting order, the sorts end in the one arrangement that the composite order sorts |
| StudentComparators.MainResult | core-java/src/main/java/com/interviewprep/java_collections_framework/comparator/Main.java:9-45 | The final list is Li 18, John 20, Bob 21, Alice 22 |
| TreeSetWithComparable.CompareTo | core-java/src/main/java/com/interviewprep/java_collections_framework/set/treeset/with_comparable/TreeSetWithComparable.java:34-37 | `Person.compareTo` has the sign of the age difference; the name plays no part |
| TreeSetWithComparable.Equals | core-java/src/main/java/com/interviewprep/java_collections_framework/set/treeset/with_comparable/TreeSetWithComparable.java:21-27 | `equals` holds exactly for the same reference or a `Person` with equal name and age; null and other classes give false |
| TreeSetWithComparable.HashCode | core-java/src/main/java/com/interviewprep/java_collections_framework/set/treeset/with_comparable/TreeSetWithComparable.java:29-32 | `hashCode` is 961 + 31·name.hashCode() + age modulo 2^32 |
| TreeSetWithComparable.ToStringInjective | core-java/src/main/java/com/interviewprep/java_collections_framework/set/treeset/with_comparable/TreeSetWithComparable.java:16-19 | The rendering `<name>: <age>` determines the name and the age |
| TreeSetWithComparable.CompareToIsComparator | core-java/src/main/java/com/interviewprep/java_collections_framework/set/treeset/with_comparable/TreeSetWithComparable.java:34-37 | The by-age order is lawful |
| TreeSetWithComparable.EqualsConsistent | core-java/src/main/java/com/interviewprep/java_collections_framework/set/treeset/with_comparable/TreeSetWithComparable.java:21-37 | Equal people compare as 0 and have the same hash code |
| TreeSetWithComparable.SameAgeNotAdded | core-java/src/main/java/com/interviewprep/java_collections_framework/set/treeset/with_comparable/TreeSetWithComparable.java:44-46 | Adding a person whose age is already present leaves the set unchanged, though that person is not `equals` to the member |
| TreeSetWithComparable.AscendingAges | core-java/src/main/java/com/interviewprep/java_collections_framework/set/treeset/with_comparable/TreeSetWithComparable.java:42-49 | Any set of people built by adds iterates by strictly ascending age |
| TreeSetWithComparable.Demo | core-java/src/main/java/com/interviewprep/java_collections_framework/set/treeset/with_comparable/TreeSetWithComparable.java:42-49 | Adding Alice 30, Bob 25, Jane 30 and Charlie 28 gives Bob, Charlie, Alice: three members, Jane dropped |
| TreeSetWithComparator.NameComparator | core-java/src/main/java/com/interviewprep/java_collections_framework/set/treeset/with_comparator/TreeSetWithComparator.java:25 | The name comparator is 0 exactly for equal names, whatever the ages, and negative exactly when p1's name precedes p2's |
| TreeSetWithComparator.NameComparatorIsComparator | core-java/src/main/java/com/interviewprep/java_collections_framework/set/treeset/with_comparator/TreeSetWithComparator.java:25 | The name comparator is lawful |
| TreeSetWithComparator.DistinctNamesKept | core-java/src/main/java/com/interviewprep/java_collections_framework/set/treeset/with_comparator/TreeSetWithComparator.java:26-32 | With pairwise distinct names nobody is dropped, and the set does not depend on the insertion order |
| TreeSetWithComparator.Demo | core-java/src/main/java/com/interviewprep/java_collections_framework/set/treeset/with_comparator/TreeSetWithComparator.java:26-32 | Adding Alice, Charlie and Bob gives the iteration order Alice, Bob, Charlie |
| TreeMapEmployee.CompareTo | core-java/src/main/java/com/interviewprep/java_collections_framework/map/treemap/TreeMapExample.java:67-70 | `Employee.compareTo` has the sign of the id difference; the name plays no part |
| TreeMapEmployee.Equals | core-java/src/main/java/com/interviewprep/java_collections_framework/map/treemap/TreeMapExample.java:72-77 | `equals` holds exactly for the same reference or an `Employee` with equal id and name |
| TreeMapEmployee.HashCode | core-java/src/main/java/com/interviewprep/java_collections_framework/map/treemap/TreeMapExample.java:79-82 | `hashCode` is 961 + 31·id + name.hashCode() modulo 2^32 |
| TreeMapEmployee.ToStringInjective | core-java/src/main/java/com/interviewprep/java_collections_framework/map/treemap/TreeMapExample.java:84-87 | The rendering `Employee{id=…, name='…'}` determines the id and the name |
| TreeMapEmployee.CompareToIsComparator | core-java/src/main/java/com/interviewprep/java_collections_framework/map/treemap/TreeMapExample.java:67-70 | The by-id order is lawful |
| TreeMapEmployee.EqualsConsistent | core-java/src/main/java/com/interviewprep/java_collections_framework/map/treemap/TreeMapExample.java:67-82 | `equals` implies a zero comparison and equal hash codes |
| TreeMapEmployee.SameIdNotEqual | core-java/src/main/java/com/interviewprep/java_collections_framework/map/treemap/TreeMapExample.java:67-77 | The converse fails: the same id under another name compares 0 but is not `equals` |
| TreeMapEmployee.AscendingIds | core-java/src/main/java/com/interviewprep/java_collections_framework/map/treemap/TreeMapExample.java:49-54 | Any employee-keyed map built by puts iterates by strictly ascending id |
| TreeMapEmployee.Demo | core-java/src/main/java/com/interviewprep/java_collections_framework/map/treemap/TreeMapExample.java:49-54 | The puts of Alice 102, Bob 101 and Charlie 103 iterate as Bob, Alice, Charlie |
| HashMapCustomKey.Equals | core-java/src/main/java/com/interviewprep/java_collections_framework/map/hashmap/HashMapExample.java:69-75 | `equals` holds exactly for the same reference or a `CustomKey` with the same id |
| HashMapCustomKey.HashCode | core-java/src/main/java/com/interviewprep/java_collections_framework/map/hashmap/HashMapExample.java:77-80 | `hashCode` is -1 for negative odd ids, 0 for even ids and 1 for positive odd ids, following Java's remainder sign rule |
| HashMapCustomKey.ToStringInjective | core-java/src/main/java/com/interviewprep/java_collections_framework/map/hashmap/HashMapExample.java:82-87 | The rendering `CustomKey{id=…}` determines the id |
| HashMapCustomKey.KeysLawful | core-java/src/main/java/com/interviewprep/java_collections_framework/map/hashmap/HashMapExample.java:69-80 | `equals` is reflexive, symmetric and transitive and holds exactly for equal ids, and equal keys hash alike |
| HashMapCustomKey.OneAndThreeCollide | core-java/src/main/java/com/interviewprep/java_collections_framework/map/hashmap/HashMapExample.java:79 | Ids 1 and 3 share hash code 1 yet are not `equals` |
| HashMapCustomKey.CollisionKeepsEntries | core-java/src/main/java/com/interviewprep/java_collections_framework/map/hashmap/HashMapExample.java:49-57 | A `put` under one id never changes what another id finds, colliding hash or not |
| HashMapCustomKey.Demo | core-java/src/main/java/com/interviewprep/java_collections_framework/map/hashmap/HashMapExample.java:49-57 | Putting 1 → Value1, 2 → Value2 and then 1 → OverwrittenValue leaves two entries, with 1 mapped to OverwrittenValue |
| ObjectClassExample.Equals | core-java/src/main/java/com/interviewprep/oop_concepts/class_and_object/object_class/ObjectClassExample.java:17-23 | `equals` holds exactly for the same reference or an instance with equal id and name; null and other classes give false |
| ObjectClassExample.HashCode | core-java/src/main/java/com/interviewprep/oop_concepts/class_and_object/object_class/ObjectClassExample.java:26-29 | `hashCode` is 961 + 31·name.hashCode() + id modulo 2^32 |
| ObjectClassExample.ToStringInjective | core-java/src/main/java/com/interviewprep/oop_concepts/class_and_object/object_class/ObjectClassExample.java:32-35 | The rendering `ObjectClassExample{name='…', id=…}` determines the name and the id |
| ObjectClassExample.Clone | core-java/src/main/java/com/interviewprep/oop_concepts/class_and_object/object_class/ObjectClassExample.java:38-41 | The clone is `equals` to the original in both directions, with the same hash code and rendering |
| ObjectClassExample.EqualsContract | core-java/src/main/java/com/interviewprep/oop_concepts/class_and_object/object_class/ObjectClassExample.java:17-29 | `equals` is reflexive, symmetric and transitive, and equal objects hash alike |
| ObjectClassExample.Demo | core-java/src/main/java/com/interviewprep/oop_concepts/class_and_object/object_class/ObjectClassExample.java:50-56 | The clone of John/101 is `equals` to it |
| ImmutablePerson.GettersReturnArguments | core-java/src/main/java/com/interviewprep/oop_concepts/encapsulation/immutable_classes/Person.java:16-43 | The getters return the constructor's arguments, and `getFriends` returns the caller's list contents as they were at construction |
| ImmutablePerson.FriendsDemo | core-java/src/main/java/com/interviewprep/oop_concepts/class_and_object/encapsulation/immutable_classes/Main.java:10-28 | After adding Charlie to the caller's list, and David to a list that `getFriends` returned, `getFriends` still gives [Alice, Bob] |
| ExceptionPropagation.Withdraw | core-java/src/main/java/com/interviewprep/exception_handling/exception_propagation/ExceptionPropagation2.java:16-21 | `withdraw` throws `InsufficientFundsException("Insufficient funds for withdrawal.")` exactly when amount > balance, and then leaves the balance as it was; otherwise it takes the amount off |
| ExceptionPropagation.ProcessWithdrawal | core-java/src/main/java/com/interviewprep/exception_handling/exception_propagation/ExceptionPropagation2.java:40-44 | `processWithdrawal` lets the withdrawal's exception reach its caller with the account unchanged; on success it reports the remaining balance |
| ExceptionPropagation.WithdrawAll | core-java/src/main/java/com/interviewprep/exception_handling/exception_propagation/ExceptionPropagation2.java:17-20 | Withdrawing exactly the balance succeeds and leaves 0, because the guard is strict |
| ExceptionPropagation.NegativeAmountDeposits | core-java/src/main/java/com/interviewprep/exception_handling/exception_propagation/ExceptionPropagation2.java:17-20 | A negative amount passes the guard and raises the balance: there is no sign check |
| ExceptionPropagation.NeverOverdrawn | core-java/src/main/java/com/interviewprep/exception_handling/exception_propagation/ExceptionPropagation2.java:17-20 | From a non-negative balance, any run of non-negative withdrawals leaves the balance between 0 and where it started |
| ExceptionPropagation.Demo | core-java/src/main/java/com/interviewprep/exception_handling/exception_propagation/ExceptionPropagation2.java:30-37 | Withdrawing 600 from 500 fails with the insufficient-funds message, and the balance stays 500 |
| AgeChecks.CheckAge | core-java/src/main/java/com/interviewprep/exception_handling/custom_exceptions/CustomExceptions.java:10-16 | `checkAge` throws `InvalidAgeException("Age is not valid for voting.")` exactly when age < 18 |
| AgeChecks.ValidateAge | core-java/src/main/java/com/interviewprep/exception_handling/throw_throws/ThrowThrowsExample.java:10-16 | `validateAge` throws `CustomException("Age is less than 18.")` exactly when age < 18 |
| AgeChecks.SameAcceptance | core-java/src/main/java/com/interviewprep/exception_handling/throw_throws/ThrowThrowsExample.java:11 | `checkAge` and `validateAge` accept exactly the same ages |
| AgeChecks.Boundary | core-java/src/main/java/com/interviewprep/exception_handling/custom_exceptions/CustomExceptions.java:11 | 17 is rejected and 18 accepted, by both validators |
| AgeChecks.MainCalls | core-java/src/main/java/com/interviewprep/exception_handling/custom_exceptions/CustomExceptions.java:18-24 | `checkAge(16)` and `validateAge(15)` both throw, with their messages |
| Calculator.AddThree | core-java/src/main/java/com/interviewprep/oop_concepts/polymorphism/method_overloading/MethodOverloadingExample.java:13-15 | `add(a, b, c)` is the exact three-way sum narrowed once to `int` |
| Calculator.AddThreeIsNested | core-java/src/main/java/com/interviewprep/oop_concepts/polymorphism/method_overloading/MethodOverloadingExample.java:5-15 | `add(a, b)` is the narrowed exact sum, and `add(a, b, c) == add(add(a, b), c)` for all `int`s |
| Calculator.AddCommutes | core-java/src/main/java/com/interviewprep/oop_concepts/polymorphism/method_overloading/MethodOverloadingExample.java:5-7 | `add(a, b) == add(b, a)` |
| Calculator.AddOverflows | core-java/src/main/java/com/interviewprep/oop_concepts/polymorphism/method_overloading/MethodOverloadingExample.java:5-7 | `add(Integer.MAX_VALUE, 1)` wraps to `Integer.MIN_VALUE` |
| Calculator.MainSums | core-java/src/main/java/com/interviewprep/oop_concepts/polymorphism/method_overloading/MethodOverloadingExample.java:21-23 | `add(5, 10) == 15` and `add(5, 10, 15) == 30` |
| StaticMethod.Add | core-java/src/main/java/com/interviewprep/java_basics/static_method/StaticMethod.java:16-18 | Static `add` is congruent to the exact sum modulo 2^32 and equal to it when that fits; it takes no instance |
| StaticMethod.AddCommutes | core-java/src/main/java/com/interviewprep/java_basics/static_method/StaticMethod.java:16-18 | Static `add` is commutative |
| StaticMethod.MainSum | core-java/src/main/java/com/interviewprep/java_basics/static_method/StaticMethod.java:9-13 | `add(5, 10) == 15`, and `instanceVariable` of a new instance stays 10 |
| Vehicle.SpeedIsJavaDivision | core-java/src/main/java/com/interviewprep/oop_concepts/abstraction/default_and_static_method_interface/Main.java:12-14 | `calculateSpeed` throws for a zero time, gives `MIN_VALUE` for `MIN_VALUE / -1`, rounds toward zero (-7 / 2 is -3), and otherwise is the truncating quotient |
| Vehicle.MainSpeed | core-java/src/main/java/com/interviewprep/oop_concepts/abstraction/default_and_static_method_interface/Main.java:32-33 | `calculateSpeed(100, 2) == 50` |
| StaticVsInstanceContext.Construct | core-java/src/main/java/com/interviewprep/oop_concepts/class_and_object/static_context/StaticVsInstanceContext.java:7-10 | A construction adds 1 to the shared static counter as a Java `int` (`MAX` goes over to `MIN`) and adds one object whose own counter is 1; earlier objects are untouched |
| StaticVsInstanceContext.ConstructCounted | core-java/src/main/java/com/interviewprep/oop_concepts/class_and_object/static_context/StaticVsInstanceContext.java:4-10 | Construction preserves the invariant: the static counter is the number of objects taken as a Java `int`, and every object's counter is 1 |
| StaticVsInstanceContext.ConstructMany | core-java/src/main/java/com/interviewprep/oop_concepts/class_and_object/static_context/StaticVsInstanceContext.java:4-10 | After n constructions every object reports instance 1 and the static counter n reduced to a Java `int`: n itself while n <= 2^31 - 1 |
| StaticVsInstanceContext.Demo | core-java/src/main/java/com/interviewprep/oop_concepts/class_and_object/static_context/StaticVsInstanceContext.java:17-22 | After obj1 and obj2, both report static 2 and instance 1 |
| StaticVariables.Construct | core-java/src/main/java/com/interviewprep/java_basics/static_variables/StaticVariables.java:11-13 | `counter++` adds 1 to the Java `int`; from `MAX` it goes over to `MIN` |
| StaticVariables.ConstructMany | core-java/src/main/java/com/interviewprep/java_basics/static_variables/StaticVariables.java:9-13 | Starting from 0, n constructions leave `counter` at n reduced to a Java `int`: n itself while n <= 2^31 - 1 |
| StaticVariables.MainCount | core-java/src/main/java/com/interviewprep/java_basics/static_variables/StaticVariables.java:15-20 | Three constructions give 3 |

## Left out

- The thread demonstrations (`concurrency/thread/**`): what they show is scheduling by the JVM.
- The library walkthroughs that have no logic of the repository's own are not modelled. These are the list, queue, deque and set demos, the `Integer`-keyed `HashMap`/`TreeMap` examples, `null` keys and values, and `TreeMap` navigation. Only the `put`/`get` behaviour that the repository's own key classes decide is modelled.
- `double` arithmetic: `Calculator.add(double, double)` is not modelled. The `BankAccount` balance is a `real`, so IEEE-754 rounding is not modelled.
- Strings are sequences of Dafny `char`. Java's `String` holds UTF-16 code units, so `compareTo` and `hashCode` agree with the model only for text inside the Basic Multilingual Plane.
- Fields are never `null`: the `Objects.equals`/`Objects.hash` handling of `null` fields is not modelled.
- Console printing, `finalize` and `System.gc` are not modelled.
- `HashMap` buckets, hash spreading, resizing, tree bins and iteration order are not modelled. Entries are kept in insertion order, so the demo's printed order is not modelled.
- `TreeSet`/`TreeMap` balancing: the red-black tree is a sorted sequence with the same contents and iteration order.
- `List.sort`/`Collections.sort` use a merge sort. The model uses an insertion sort, proved stable (`Sorting.SortStable`), which is the property `Collections.sort` guarantees.
- The `LRUCache` load factor and the `hashCode` override are not modelled. The model keeps the capacity as an `int`; negative capacities are rejected, as the `HashMap` constructor rejects them.
- The anonymous comparator class and the name lambda of the comparator `Main` have the same body as `StudentNameComparator.compare`. All three are `StudentComparators.NameCompare`.
- `clone` is a field-by-field copy (`Object.clone` of a `Cloneable`); `CloneNotSupportedException` cannot arise.
- `LocalDate` is a plain triple: its calendar validation is not modelled.
- The immutable `Person` is declared in the `encapsulation` package. The `Main` that exercises it is declared in `class_and_object.encapsulation` and does not import it. The model takes `Main` to use this `Person`.
- `TreeSetWithComparator.java` declares the package `with_comparator_custom_object`, which differs from its directory. This does not affect the behaviour modelled.
- Calculator.Add: no contract of its own; `Calculator.AddThreeIsNested` and `Calculator.AddCommutes` state what it computes.
- Vehicle.CalculateSpeed: no contract of its own; `Vehicle.SpeedIsJavaDivision` states what it computes.
- Plain getters and fields of the `comparator` `Student` and the other beans are record fields.

## Findings

| source | as written | input that shows it | evidently intended | confidence | as-written member | corrected member |
|---|---|---|---|---|---|---|
| core-java/src/main/java/com/interviewprep/java_collections_framework/map/linkedhashmap/LRUCacheExample.java:24-30 | `equals` calls `super.equals(o)`. `AbstractMap.equals` checks each entry with `o.get(key)`, and on an access-ordered `LinkedHashMap` every such `get` moves the key to o's most recently used end. Asking `a.equals(b)` therefore reorders `b`, and with it b's next eviction | a = [1→One, 2→Two] and b = [2→Two, 1→One], both capacity 2. `a.equals(b)` is true and leaves b as [1, 2], so `b.put(3, …)` then evicts 1 instead of 2 | A comparison with no effect on either cache: equal capacity and equal mappings | medium, not executed | LruCache.EqualsAsWritten, LruCache.EqualsAsWrittenReordersArgument | LruCache.Equals, LruCache.EqualsIffSameContents |
