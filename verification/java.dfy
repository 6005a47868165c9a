/** Java's 32-bit `int` and the integer operators the automaton uses, written
    out over Dafny's unbounded integers: two's-complement wrap-around, the
    truncating remainder `%` and the bitwise exclusive-or `^`. */
module Java {

  const MinInt: int := -0x8000_0000
  const MaxInt: int := 0x7FFF_FFFF
  const Modulus: int := 0x1_0000_0000

  /** A value of Java type `int`. */
  type Int32 = x: int | MinInt <= x <= MaxInt

  /** The exceptions the modelled code can raise. */
  datatype Exception = NumberFormatException | ArrayIndexOutOfBoundsException

  /** A computation that either returns a value or throws. */
  datatype Result<+T> = Return(value: T) | Throw(exception: Exception)

  /** Narrowing of a mathematical integer to `int`, as two's-complement
      hardware does it. */
  function Wrap(x: int): (r: Int32)
    ensures (x - r) % Modulus == 0
    ensures MinInt <= x <= MaxInt ==> r == x
  {
    (x - MinInt) % Modulus + MinInt
  }

  /** Java `a - b` on `int` operands (wraps on overflow). */
  function Sub(a: Int32, b: Int32): (r: Int32)
    ensures MinInt <= a - b <= MaxInt ==> r == a - b
    ensures a - b < MinInt ==> r == a - b + Modulus
    ensures MaxInt < a - b ==> r == a - b - Modulus
  {
    Wrap(a - b)
  }

  function Abs(x: int): nat { if x < 0 then -x else x }

  /** Java `a % b`: the remainder of the division truncated toward zero, whose
      sign follows the dividend (Dafny's own `%` is Euclidean). */
  function Rem(a: int, b: int): (r: int)
    requires b != 0
    ensures Abs(r) < Abs(b)
    ensures 0 <= a ==> 0 <= r
    ensures a <= 0 ==> r <= 0
    ensures r == 0 <==> a % b == 0
  {
    RemZeroIsDivisibility(a, b);
    if a >= 0 then a % Abs(b) else -((-a) % Abs(b))
  }

  /** A zero remainder means divisibility under both conventions, so a check
      `a % b == 0` reads the same in Java and in Dafny. */
  lemma RemZeroIsDivisibility(a: int, b: int)
    requires b != 0
    ensures (if a >= 0 then a % Abs(b) else -((-a) % Abs(b))) == 0 <==> a % b == 0
  {
    var m := Abs(b);
    var x := Abs(a);
    if a % b == 0 {
      var q := a / b;
      assert a == b * q;
      if a >= 0 {
        assert x == m * (if b > 0 then q else -q);
        MultipleHasZeroRemainder(x, m, if b > 0 then q else -q);
      } else {
        assert x == m * (if b > 0 then -q else q);
        MultipleHasZeroRemainder(x, m, if b > 0 then -q else q);
      }
    }
    if x % m == 0 {
      var q: int := x / m;
      assert x == m * q;
      if a >= 0 {
        assert a == b * (if b > 0 then q else -q);
        MultipleHasZeroRemainder(a, b, if b > 0 then q else -q);
      } else {
        assert a == b * (if b > 0 then -q else q);
        MultipleHasZeroRemainder(a, b, if b > 0 then -q else q);
      }
    }
  }

  /** Euclidean remainder of an exact multiple is zero. */
  lemma MultipleHasZeroRemainder(a: int, b: int, q: int)
    requires b != 0
    requires a == b * q
    ensures a % b == 0
  {
    var d := q - a / b;
    assert b * d == a % b by { SubtractQuotient(a, b, q); }
    ProductMagnitude(b, d);
    ProductAtLeastFactor(Abs(b), Abs(d));
  }

  /** Taking the Euclidean quotient's multiple off `b * q` leaves the
      remainder. */
  lemma SubtractQuotient(a: int, b: int, q: int)
    requires b != 0 && a == b * q
    ensures b * (q - a / b) == a % b
  {
    assert a == b * (a / b) + a % b;
    assert b * (q - a / b) == b * q - b * (a / b);
  }

  lemma ProductMagnitude(b: int, d: int)
    ensures Abs(b * d) == Abs(b) * Abs(d)
  {
    if b < 0 && d < 0 {
      assert b * d == (-b) * (-d);
    } else if b < 0 {
      assert -(b * d) == (-b) * d;
    } else if d < 0 {
      assert -(b * d) == b * (-d);
    }
  }

  lemma ProductAtLeastFactor(m: nat, e: nat)
    ensures e >= 1 ==> m * e >= m
  {
    if e >= 1 {
      assert m * e == m + m * (e - 1);
    }
  }

  /** Java `a ^ b` on non-negative operands: bitwise exclusive-or. */
  function Xor(a: nat, b: nat): (r: nat)
    ensures r % 2 == (a + b) % 2
    decreases a + b
  {
    if a == 0 then b
    else if b == 0 then a
    else
      DoublePlusBit(Xor(a / 2, b / 2), (a + b) % 2);
      2 * Xor(a / 2, b / 2) + (a + b) % 2
  }

  /** Appending a low bit to a number: the parity is that bit. */
  lemma DoublePlusBit(h: int, p: int)
    requires 0 <= p < 2
    ensures (2 * h + p) % 2 == p
  {
  }
}
