/**
 * The immutable `Person` of the encapsulation package: final fields, no
 * setters, and defensive copies of its mutable friends list on the way in
 * (constructor) and on the way out (`getFriends`).
 */
module ImmutablePerson {
  import opened JavaInt

  /** `java.time.LocalDate`, an immutable value; shared freely. */
  datatype LocalDate = LocalDate(year: int, month: int, day: int)

  /** A `java.util.List<String>`: a mutable object holding a sequence of strings. */
  class StringList {
    var items: seq<string>

    /** `new ArrayList<>(source)`: a new list holding the same elements. */
    constructor Copy(source: seq<string>)
      ensures items == source
    {
      items := source;
    }

    /** `add(s)`: appends at the end. */
    method Add(s: string)
      modifies this
      ensures items == old(items) + [s]
    {
      items := items + [s];
    }
  }

  class Person {
    const name: string
    const age: Int32
    const birthDate: LocalDate
    const friends: StringList

    /** The constructor stores the scalar fields and a copy of the caller's list. */
    constructor (name: string, age: Int32, birthDate: LocalDate, friendsList: StringList)
      ensures this.name == name && this.age == age && this.birthDate == birthDate
      ensures fresh(friends) && friends.items == friendsList.items
    {
      this.name := name;
      this.age := age;
      this.birthDate := birthDate;
      this.friends := new StringList.Copy(friendsList.items);
    }

    function GetName(): string {
      name
    }

    function GetAge(): Int32 {
      age
    }

    function GetBirthDate(): LocalDate {
      birthDate
    }

    /** `getFriends()`: a new list with the stored friends; the stored list itself never escapes. */
    method GetFriends() returns (r: StringList)
      ensures fresh(r) && r != friends
      ensures r.items == friends.items
    {
      r := new StringList.Copy(friends.items);
    }
  }

  /** A person built from some values hands the same values back through its getters. */
  method GettersReturnArguments(name: string, age: Int32, birthDate: LocalDate, friendsList: StringList)
    returns (n: string, a: Int32, b: LocalDate, fs: seq<string>)
    ensures n == name && a == age && b == birthDate && fs == friendsList.items
  {
    var person := new Person(name, age, birthDate, friendsList);
    n, a, b := person.GetName(), person.GetAge(), person.GetBirthDate();
    var copy := person.GetFriends();
    fs := copy.items;
  }

  /**
   * `main`: build a person from [Alice, Bob], add Charlie to the caller's list,
   * read the friends, add David to the list read, and read them again. Both
   * reads see [Alice, Bob].
   */
  method FriendsDemo() returns (first: seq<string>, second: seq<string>)
    ensures first == ["Alice", "Bob"]
    ensures second == ["Alice", "Bob"]
  {
    var friendsList := new StringList.Copy([]);
    friendsList.Add("Alice");
    friendsList.Add("Bob");
    var person := new Person("John Doe", 30, LocalDate(1990, 5, 15), friendsList);
    friendsList.Add("Charlie");
    var shown := person.GetFriends();
    first := shown.items;
    var retrieved := person.GetFriends();
    retrieved.Add("David");
    var again := person.GetFriends();
    second := again.items;
  }
}
