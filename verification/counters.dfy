/**
 * Construction counters: `StaticVsInstanceContext`, whose constructor bumps a
 * class-wide `staticCounter` and the new object's own `instanceCounter`, and
 * `StaticVariables`, whose constructor bumps a class-wide `counter`. The class
 * state (static fields plus every object created) is a value threaded through
 * the constructions. The counters are Java `int`s: the 2^31st construction
 * takes a class-wide counter from `MAX` over to `MIN`.
 */
module StaticVsInstanceContext {
  import opened JavaInt

  /** The static field, and the `instanceCounter` of each object made so far, oldest first. */
  datatype State = State(staticCounter: Int32, instanceCounters: seq<Int32>)

  /** Before any construction: `staticCounter = 0`, no objects. */
  const INITIAL: State := State(0, [])

  /** `new StaticVsInstanceContext()`: `staticCounter++` on the class, `instanceCounter++` on the new object (from 0). */
  function Construct(s: State): (r: State)
    ensures r.staticCounter == Wrap(s.staticCounter + 1)
    ensures s.staticCounter < MAX ==> r.staticCounter == s.staticCounter + 1
    ensures s.staticCounter == MAX ==> r.staticCounter == MIN
    ensures |r.instanceCounters| == |s.instanceCounters| + 1
    ensures r.instanceCounters[..|s.instanceCounters|] == s.instanceCounters
    ensures r.instanceCounters[|s.instanceCounters|] == 1
  {
    State(Increment(s.staticCounter), s.instanceCounters + [Increment(0)])
  }

  /** `obj.displayCounters()`: the shared static counter and that object's own counter. */
  function DisplayCounters(s: State, obj: nat): (Int32, Int32)
    requires obj < |s.instanceCounters|
  {
    (s.staticCounter, s.instanceCounters[obj])
  }

  /**
   * Every reachable state: the static counter is the number of objects, taken
   * as a Java `int`, and each object's counter is 1.
   */
  ghost predicate Counted(s: State) {
    && s.staticCounter == Wrap(|s.instanceCounters|)
    && forall i :: 0 <= i < |s.instanceCounters| ==> s.instanceCounters[i] == 1
  }

  lemma ConstructCounted(s: State)
    requires Counted(s)
    ensures Counted(Construct(s))
  {
    var r := Construct(s);
    WrapAddLeft(|s.instanceCounters|, 1);
    forall i | 0 <= i < |r.instanceCounters| ensures r.instanceCounters[i] == 1 {
      if i < |s.instanceCounters| {
        assert r.instanceCounters[i] == r.instanceCounters[..|s.instanceCounters|][i];
      }
    }
  }

  /**
   * `n` constructions from the start: the static counter is `n` as a Java `int`
   * (so `n` itself while `n <= MAX`) and every object reports 1.
   */
  method ConstructMany(n: nat) returns (s: State)
    ensures s.staticCounter == Wrap(n) && |s.instanceCounters| == n
    ensures n <= MAX ==> s.staticCounter == n
    ensures forall obj :: 0 <= obj < n ==> DisplayCounters(s, obj) == (Wrap(n), 1)
  {
    s := INITIAL;
    WrapInRange(0);
    var k := 0;
    while k < n
      invariant 0 <= k <= n
      invariant Counted(s) && |s.instanceCounters| == k
    {
      ConstructCounted(s);
      s := Construct(s);
      k := k + 1;
    }
    if n <= MAX {
      WrapInRange(n);
    }
  }

  /** `main`: after obj1 and obj2, both display static 2 and instance 1. */
  lemma Demo()
    ensures var s := Construct(Construct(INITIAL));
      DisplayCounters(s, 0) == (2, 1) && DisplayCounters(s, 1) == (2, 1)
  {
  }
}

module StaticVariables {
  import opened JavaInt

  /** `static int counter = 0`. */
  const INITIAL_COUNTER: Int32 := 0

  /** `new StaticVariables()`: `counter++`; the class has no other state. */
  function Construct(counter: Int32): (r: Int32)
    ensures r == Wrap(counter + 1)
    ensures counter < MAX ==> r == counter + 1
    ensures counter == MAX ==> r == MIN
  {
    Increment(counter)
  }

  /** `n` constructions from the start leave `counter` at `n` as a Java `int`: `n` itself while `n <= MAX`. */
  method ConstructMany(n: nat) returns (counter: Int32)
    ensures counter == Wrap(n)
    ensures n <= MAX ==> counter == n
  {
    counter := INITIAL_COUNTER;
    WrapInRange(0);
    var k := 0;
    while k < n
      invariant 0 <= k <= n && counter == Wrap(k)
    {
      WrapAddLeft(k, 1);
      counter := Construct(counter);
      k := k + 1;
    }
    if n <= MAX {
      WrapInRange(n);
    }
  }

  /** `main` constructs three objects and prints 3. */
  lemma MainCount()
    ensures Construct(Construct(Construct(INITIAL_COUNTER))) == 3
  {
  }
}
