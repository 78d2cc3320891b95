/** The 17.14 fixed-point macros of threads/fixed_point.h.  A fixed-point
    number is an integer whose low 14 bits are the fraction.  Each macro is
    modelled as a function of its argument VALUES (the macros do not
    parenthesize their parameters, so an expression argument would expand
    differently; callers pass plain variables).  Arithmetic is unbounded;
    the 64-bit widening of the multiply and divide is shown to be enough by
    the lemmas at the end. */
module FixedPoint {
  import opened CInt

  const BITS: int := 14
  const ONE_LSHIFT_BITS: int := ((1 as bv32) << 14) as int
  const FACTOR: int := 16384

  /** The literal factor is the shift it stands for. */
  lemma FactorIsShift()
    ensures FACTOR == ONE_LSHIFT_BITS && FACTOR / 2 == 8192
  {
  }

  function IntToFixed(n: int): int { n * FACTOR }

  function FixedToIntTowardZero(x: int): int { Div(x, FACTOR) }

  function FixedToNearestInt(x: int): int
  {
    if x >= 0 then Div(x + FACTOR / 2, FACTOR) else Div(x - FACTOR / 2, FACTOR)
  }

  function FixedAdd(x: int, y: int): int { x + y }

  function FixedAddInt(x: int, n: int): int { x + n * FACTOR }

  function FixedSubtract(x: int, y: int): int { x - y }

  function FixedSubtractInt(x: int, n: int): int { x - n * FACTOR }

  /** `((int64_t) x) * y / FACTOR`: the product is formed in 64 bits. */
  function FixedMultiply(x: int, y: int): int { Div(x * y, FACTOR) }

  function FixedMultiplyInt(x: int, n: int): int { x * n }

  /** `((int64_t) x) * FACTOR / y`: C leaves division by zero undefined. */
  function FixedDivide(x: int, y: int): int
    requires y != 0
  {
    Div(x * FACTOR, y)
  }

  function FixedDivideInt(x: int, n: int): int
    requires n != 0
  {
    Div(x, n)
  }

  /** Truncation toward zero: the fraction dropped is less than one unit
      and never changes the sign of the value. */
  lemma TowardZeroTruncates(x: int)
    ensures var n := FixedToIntTowardZero(x);
            (x >= 0 ==> 0 <= x - IntToFixed(n) < FACTOR) &&
            (x < 0 ==> -FACTOR < x - IntToFixed(n) <= 0)
  {
  }

  /** Toward-zero truncation of a negative value differs from the
      floor that Dafny's own division computes. */
  lemma TowardZeroIsNotFloor()
    ensures FixedToIntTowardZero(-1) == 0 && -1 / FACTOR == -1
  {
  }

  lemma TowardZeroRoundTrip(n: int)
    ensures FixedToIntTowardZero(IntToFixed(n)) == n
  {
    var q := FixedToIntTowardZero(n * FACTOR);
    TowardZeroTruncates(n * FACTOR);
    assert (n - q) * FACTOR == n * FACTOR - q * FACTOR;
  }

  /** Rounding to nearest: the result is within half a unit of the value,
      and an exact half is rounded away from zero. */
  lemma NearestRounds(x: int)
    ensures var n := FixedToNearestInt(x);
            2 * Abs(x - IntToFixed(n)) <= FACTOR &&
            (2 * Abs(x - IntToFixed(n)) == FACTOR ==> Abs(IntToFixed(n)) > Abs(x))
  {
    var n := FixedToNearestInt(x);
    if x >= 0 {
      assert 0 <= x + 8192 - n * FACTOR < FACTOR;
      assert n >= 0;
    } else {
      assert -FACTOR < x - 8192 - n * FACTOR <= 0;
      assert n <= 0;
    }
  }

  lemma NearestIsOdd(x: int)
    ensures FixedToNearestInt(-x) == -FixedToNearestInt(x)
  {
    if x > 0 {
      DivNeg(x + FACTOR / 2, FACTOR);
    } else if x < 0 {
      DivNeg(-x + FACTOR / 2, FACTOR);
    }
  }

  lemma NearestRoundTrip(n: int)
    ensures FixedToNearestInt(IntToFixed(n)) == n
  {
    var r := FixedToNearestInt(n * FACTOR);
    NearestRounds(n * FACTOR);
    assert n * FACTOR - r * FACTOR == (n - r) * FACTOR;
  }

  lemma AddIntIsAddOfConverted(x: int, n: int)
    ensures FixedAddInt(x, n) == FixedAdd(x, IntToFixed(n))
    ensures FixedSubtractInt(x, n) == FixedSubtract(x, IntToFixed(n))
  {
  }

  /** The integer forms of multiply and divide are the general ones
      applied to the converted integer: the factor cancels exactly. */
  lemma MulDivIntAreOfConverted(x: int, n: int)
    ensures FixedMultiplyInt(x, n) == FixedMultiply(x, IntToFixed(n))
    ensures n != 0 ==> FixedDivideInt(x, n) == FixedDivide(x, IntToFixed(n))
  {
    MulAssoc(x, n);
    TowardZeroRoundTrip(x * n);
    if n != 0 {
      DivideIntCancels(x, n);
    }
  }

  lemma MulAssoc(x: int, n: int)
    ensures x * (n * FACTOR) == (x * n) * FACTOR
  {
  }

  lemma DivideIntCancels(x: int, n: int)
    requires n != 0
    ensures Div(x * FACTOR, n * FACTOR) == Div(x, n)
  {
    var q := Div(x, n);
    var r := x - q * n;
    ScaleRemainder(x, q, n);
    assert x * FACTOR - q * (n * FACTOR) == r * FACTOR;
    AbsMul(n, FACTOR);
    assert Abs(n * FACTOR) == Abs(n) * FACTOR;
    ScaleBound(r, Abs(n));
    DivUnique(x * FACTOR, n * FACTOR, q);
  }

  lemma ScaleRemainder(x: int, q: int, n: int)
    ensures x * FACTOR - q * (n * FACTOR) == (x - q * n) * FACTOR
  {
  }

  lemma ScaleBound(r: int, m: int)
    ensures 0 <= r < m ==> 0 <= r * FACTOR < m * FACTOR
    ensures -m < r <= 0 ==> -(m * FACTOR) < r * FACTOR <= 0
  {
  }

  /** Multiplying by fixed-point one is the identity and, on 32-bit
      operands, the widened product cannot overflow. */
  lemma MultiplyByOne(x: int)
    requires IsInt32(x)
    ensures IsInt64(x * IntToFixed(1))
    ensures FixedMultiply(x, IntToFixed(1)) == x
  {
    TowardZeroRoundTrip(x);
  }

  /** Dividing by fixed-point one is the identity, and the widened
      dividend of a 32-bit value cannot overflow. */
  lemma DivideByOne(x: int)
    requires IsInt32(x)
    ensures IsInt64(x * FACTOR)
    ensures FixedDivide(x, IntToFixed(1)) == x
  {
    TowardZeroRoundTrip(x);
  }
}
