/**
 * Java `int` arithmetic (sections 4.2.2, 15.17 and 15.18.2 of the Java Language
 * Specification): 32-bit two's complement values, addition that wraps around,
 * division that truncates toward zero, and a remainder that takes the sign of
 * the dividend. Dafny's `int` is unbounded and its `/` and `%` are Euclidean, so
 * every Java operator is written out here.
 */
module JavaInt {
  import opened Wrappers

  const MIN: int := -0x8000_0000
  const MAX: int := 0x7fff_ffff
  const MODULUS: int := 0x1_0000_0000

  /** A value of Java type `int`. */
  type Int32 = x: int | MIN <= x <= MAX

  /** `java.lang.ArithmeticException`, carrying its message. */
  datatype ArithmeticException = ArithmeticException(message: string)

  function Abs(x: int): nat {
    if x < 0 then -x else x
  }

  /** The `int` that is congruent to `x` modulo 2^32: the result of narrowing an exact result. */
  function Wrap(x: int): (r: Int32)
    ensures (r - x) % MODULUS == 0
  {
    var m := (x - MIN) % MODULUS;
    assert x - MIN == MODULUS * ((x - MIN) / MODULUS) + m;
    m + MIN
  }

  /** Wrapping changes nothing for a value already in range. */
  lemma WrapInRange(x: int)
    requires MIN <= x <= MAX
    ensures Wrap(x) == x
  {
    var m := (x - MIN) % MODULUS;
    assert 0 <= x - MIN < MODULUS;
  }

  /** Two exact results that agree modulo 2^32 narrow to the same `int`. */
  lemma WrapCongruent(x: int, y: int)
    requires (x - y) % MODULUS == 0
    ensures Wrap(x) == Wrap(y)
  {
    var k := (x - y) / MODULUS;
    assert x - y == MODULUS * k;
    ShiftMod(y - MIN, k);
    assert x - MIN == (y - MIN) + MODULUS * k;
  }

  lemma {:induction false} ShiftMod(a: int, k: int)
    ensures (a + MODULUS * k) % MODULUS == a % MODULUS
  {
    var q := a / MODULUS;
    var r := a % MODULUS;
    assert a == MODULUS * q + r;
    assert a + MODULUS * k == MODULUS * (q + k) + r;
    assert 0 <= r < MODULUS;
  }

  /** Wrapping an intermediate result does not change the final one: `Wrap` is a ring homomorphism for `+`. */
  lemma WrapAddLeft(x: int, y: int)
    ensures Wrap(Wrap(x) + y) == Wrap(x + y)
  {
    WrapCongruent(Wrap(x) + y, x + y);
  }

  /** The same for a product with a constant factor, as in `31 * h + c`. */
  lemma WrapMulAddLeft(k: int, x: int, y: int)
    ensures Wrap(k * Wrap(x) + y) == Wrap(k * x + y)
  {
    var d := Wrap(x) - x;
    assert d % MODULUS == 0;
    var q := d / MODULUS;
    assert d == MODULUS * q;
    assert (k * Wrap(x) + y) - (k * x + y) == k * d;
    assert k * d == MODULUS * (k * q);
    ShiftMod(0, k * q);
    WrapCongruent(k * Wrap(x) + y, k * x + y);
  }

  /** Java `a + b` on `int` operands. */
  function Add(a: Int32, b: Int32): (r: Int32)
    ensures (r - (a + b)) % MODULUS == 0
    ensures MIN <= a + b <= MAX ==> r == a + b
  {
    if MIN <= a + b <= MAX then WrapInRange(a + b); Wrap(a + b) else Wrap(a + b)
  }

  /** Java `x++` on an `int`: one more, except that `MAX` steps over to `MIN`. */
  function Increment(x: Int32): (r: Int32)
    ensures r == Wrap(x + 1)
    ensures x < MAX ==> r == x + 1
    ensures x == MAX ==> r == MIN
  {
    var r := Add(x, 1);
    WrapCongruent(r, x + 1);
    WrapInRange(r);
    if x == MAX then WrapCongruent(MAX + 1, MIN); WrapInRange(MIN); r else r
  }

  /** `Integer.compare(x, y)`: -1, 0 or 1 as `x` is less than, equal to or greater than `y`. */
  function Compare(x: int, y: int): (r: int)
    ensures -1 <= r <= 1
    ensures r < 0 <==> x < y
    ensures r == 0 <==> x == y
  {
    if x < y then -1 else if x == y then 0 else 1
  }

  /**
   * The mathematical quotient of `a / b` rounded toward zero, as Java's `/` computes
   * it before narrowing (section 15.17.2 of the Java Language Specification).
   */
  function Quot(a: int, b: int): (q: int)
    requires b != 0
    ensures Abs(b) * Abs(q) <= Abs(a) < Abs(b) * (Abs(q) + 1)
    ensures q > 0 ==> (a > 0 <==> b > 0)
    ensures q < 0 ==> (a > 0 <==> b < 0)
  {
    var n := Abs(a) / Abs(b);
    NatDivBounds(Abs(a), Abs(b));
    if (a >= 0) == (b > 0) then n else -n
  }

  lemma NatDivBounds(n: nat, d: nat)
    requires d > 0
    ensures d * (n / d) <= n < d * (n / d + 1)
    ensures n / d == 0 <==> n < d
  {
    var q := n / d;
    var r := n % d;
    assert n == d * q + r;
    assert d * (q + 1) == d * q + d;
    if q > 0 {
      assert d * q >= d by { MulMonotone(d, q); }
    }
  }

  lemma MulMonotone(d: nat, q: nat)
    requires q >= 1
    ensures d * q >= d
  {
    assert d * q == d * (q - 1) + d;
  }

  /** Java's `%`: the remainder of truncating division, with the sign of the dividend (section 15.17.3). */
  function Rem(a: int, b: int): (r: int)
    requires b != 0
    ensures Quot(a, b) * b + r == a
    ensures Abs(r) < Abs(b)
    ensures r > 0 ==> a > 0
    ensures r < 0 ==> a < 0
  {
    RemIsSignedModulus(a, b);
    a - Quot(a, b) * b
  }

  /** What truncation leaves over is the magnitude's remainder, carrying the dividend's sign. */
  lemma RemIsSignedModulus(a: int, b: int)
    requires b != 0
    ensures a - Quot(a, b) * b == if a >= 0 then Abs(a) % Abs(b) else -(Abs(a) % Abs(b))
  {
    var q := Quot(a, b);
    var n := Abs(a) / Abs(b);
    var p := n * Abs(b);
    assert Abs(a) == p + Abs(a) % Abs(b);
    assert q * b == if a >= 0 then p else -p by {
      if b > 0 {
        assert Abs(b) == b;
      } else {
        assert Abs(b) == -b;
        assert q * b == (-q) * Abs(b);
      }
    }
  }

  /** Java `a / b` on `int` operands: throws on a zero divisor, and `MIN / -1` overflows back to `MIN`. */
  function Div(a: Int32, b: Int32): (r: Result<Int32, ArithmeticException>)
    ensures r.Err? <==> b == 0
    ensures r.Err? ==> r.error.message == "/ by zero"
    ensures r.Ok? && !(a == MIN && b == -1) ==> r.value == Quot(a, b)
    ensures r.Ok? && a == MIN && b == -1 ==> r.value == MIN
  {
    if b == 0 then Err(ArithmeticException("/ by zero"))
    else
      var q := Quot(a, b);
      if a == MIN && b == -1 then
        assert q == MAX + 1;
        Ok(Wrap(q))
      else
        assert MIN <= q <= MAX by { QuotInRange(a, b); }
        WrapInRange(q);
        Ok(Wrap(q))
  }

  lemma QuotInRange(a: Int32, b: Int32)
    requires b != 0 && !(a == MIN && b == -1)
    ensures MIN <= Quot(a, b) <= MAX
  {
    var n := Abs(a) / Abs(b);
    if Abs(b) == 1 {
      assert n == Abs(a);
    } else {
      DivByAtLeastTwo(Abs(a), Abs(b));
    }
  }

  lemma DivByAtLeastTwo(n: nat, d: nat)
    requires d >= 2
    ensures n / d <= n / 2
  {
    var q := n / d;
    NatDivBounds(n, d);
    assert d * q == 2 * q + (d - 2) * q;
    assert 2 * q <= n;
  }

  /** Java truncates where Dafny's Euclidean division floors a negative dividend: -7 / 2 is -3, not -4. */
  lemma TruncationDiffersFromEuclid()
    ensures Div(-7, 2) == Ok(-3)
    ensures -7 / 2 == -4
    ensures Rem(-7, 2) == -1 && -7 % 2 == 1
  {
  }
}
