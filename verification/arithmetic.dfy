/**
 * The `int` helpers of the OOP and basics examples: `Calculator.add` in its
 * two- and three-operand `int` overloads, the static `StaticMethod.add`, and
 * `Vehicle.calculateSpeed`. Each is one Java `int` expression, so each is the
 * 32-bit operator of the Java Language Specification.
 */
module Calculator {
  import opened JavaInt

  /** `add(int a, int b)`: `a + b`. */
  function Add(a: Int32, b: Int32): Int32 {
    JavaInt.Add(a, b)
  }

  /** `add(int a, int b, int c)`: `a + b + c`, evaluated left to right, each `+` wrapping. */
  function AddThree(a: Int32, b: Int32, c: Int32): (r: Int32)
    ensures r == Wrap(a + b + c)
  {
    WrapAddLeft(a + b, c);
    JavaInt.Add(JavaInt.Add(a, b), c)
  }

  /** Both overloads reduce the exact sum modulo 2^32, so adding three is adding twice. */
  lemma AddThreeIsNested(a: Int32, b: Int32, c: Int32)
    ensures Add(a, b) == Wrap(a + b)
    ensures AddThree(a, b, c) == Add(Add(a, b), c)
  {
    WrapCongruent(Add(a, b), a + b);
    WrapCongruent(Add(Add(a, b), c), Add(a, b) + c);
    WrapAddLeft(a + b, c);
    WrapCongruent(Add(a, b) + c, Wrap(a + b) + c);
  }

  lemma AddCommutes(a: Int32, b: Int32)
    ensures Add(a, b) == Add(b, a)
  {
    WrapCongruent(Add(a, b), a + b);
    WrapCongruent(Add(b, a), b + a);
  }

  /** `2147483647 + 1` wraps to `-2147483648`. */
  lemma AddOverflows()
    ensures Add(MAX, 1) == MIN
  {
    WrapCongruent(Add(MAX, 1), MAX + 1);
  }

  /** `main`: `add(5, 10)` is 15 and `add(5, 10, 15)` is 30. */
  lemma MainSums()
    ensures Add(5, 10) == 15
    ensures AddThree(5, 10, 15) == 30
  {
    WrapInRange(30);
  }
}

module StaticMethod {
  import JavaInt

  /** An instance of `StaticMethod`: the only instance state is `instanceVariable`, initially 10. */
  datatype Instance = Instance(instanceVariable: JavaInt.Int32)

  const NEW: Instance := Instance(10)

  /** `static int add(a, b)`: `a + b`; being static it takes no instance, so it neither reads nor writes one. */
  function Add(a: JavaInt.Int32, b: JavaInt.Int32): (r: JavaInt.Int32)
    ensures (r - (a + b)) % JavaInt.MODULUS == 0
    ensures JavaInt.MIN <= a + b <= JavaInt.MAX ==> r == a + b
  {
    JavaInt.Add(a, b)
  }

  lemma AddCommutes(a: JavaInt.Int32, b: JavaInt.Int32)
    ensures Add(a, b) == Add(b, a)
  {
    JavaInt.WrapCongruent(Add(a, b), a + b);
    JavaInt.WrapCongruent(Add(b, a), b + a);
  }

  /** `main`: `StaticMethod.add(5, 10)` is 15, and a new instance still holds 10. */
  lemma MainSum()
    ensures Add(5, 10) == 15
    ensures NEW.instanceVariable == 10
  {
  }
}

module Vehicle {
  import opened Wrappers
  import opened JavaInt

  /** `static int calculateSpeed(distance, time)`: `distance / time`. */
  function CalculateSpeed(distance: Int32, time: Int32): Result<Int32, ArithmeticException> {
    Div(distance, time)
  }

  /**
   * Java's truncating, throwing, overflowing division: a zero time throws, a
   * negative speed rounds toward zero, and `MIN_VALUE / -1` is `MIN_VALUE`.
   */
  lemma SpeedIsJavaDivision(distance: Int32, time: Int32)
    ensures CalculateSpeed(distance, 0) == Err(ArithmeticException("/ by zero"))
    ensures CalculateSpeed(MIN, -1) == Ok(MIN)
    ensures time != 0 && !(distance == MIN && time == -1) ==> CalculateSpeed(distance, time) == Ok(Quot(distance, time))
    ensures CalculateSpeed(-7, 2) == Ok(-3)
  {
    TruncationDiffersFromEuclid();
  }

  /** `main`: `calculateSpeed(100, 2)` is 50. */
  lemma MainSpeed()
    ensures CalculateSpeed(100, 2) == Ok(50)
  {
    assert Quot(100, 2) == 50;
  }
}
