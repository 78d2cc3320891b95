/** The parts of C integer semantics the kernel's arithmetic depends on:
    the range of `int` and `int64_t`, division that truncates toward zero,
    and the conversion of a 64-bit value back to a 32-bit `int`. */
module CInt {

  const INT32_MIN: int := -0x8000_0000
  const INT32_MAX: int := 0x7fff_ffff
  const INT64_MIN: int := -0x8000_0000_0000_0000
  const INT64_MAX: int := 0x7fff_ffff_ffff_ffff

  predicate IsInt32(x: int) { INT32_MIN <= x <= INT32_MAX }

  predicate IsInt64(x: int) { INT64_MIN <= x <= INT64_MAX }

  function Abs(x: int): (r: int)
    ensures 0 <= r && (r == x || r == -x)
  {
    if x < 0 then -x else x
  }

  /** C's `a / b`: the quotient truncated toward zero.  The remainder
      `a - q * b` is smaller than `b` in magnitude and carries the sign of
      `a` (C99 section 6.5.5), unlike Dafny's Euclidean `/`. */
  function Div(a: int, b: int): (q: int)
    requires b != 0
    ensures 0 <= a ==> 0 <= a - q * b < Abs(b)
    ensures a < 0 ==> -Abs(b) < a - q * b <= 0
  {
    var m := Abs(a) / Abs(b);
    DivAbs(a, b, m);
    if (a < 0) == (b < 0) then m else -m
  }

  lemma DivAbs(a: int, b: int, m: int)
    requires b != 0 && m == Abs(a) / Abs(b)
    ensures var q := if (a < 0) == (b < 0) then m else -m;
            (0 <= a ==> 0 <= a - q * b < Abs(b)) && (a < 0 ==> -Abs(b) < a - q * b <= 0)
  {
    var A: int, B: int := Abs(a), Abs(b);
    var r := A % B;
    assert A == m * B + r && 0 <= r < B;
    if b < 0 {
      assert b == -B;
      assert m * b == -(m * B) && -m * b == m * B;
    } else {
      assert b == B;
      assert -m * b == -(m * B);
    }
  }

  /** The C quotient is the only one whose remainder is smaller than the
      divisor in magnitude and carries the dividend's sign. */
  lemma DivUnique(a: int, b: int, q: int)
    requires b != 0
    requires 0 <= a ==> 0 <= a - q * b < Abs(b)
    requires a < 0 ==> -Abs(b) < a - q * b <= 0
    ensures q == Div(a, b)
  {
    var d := Div(a, b);
    var k := d - q;
    var r, s := a - q * b, a - d * b;
    Distribute(d, q, b);
    assert k * b == r - s;
    assert Abs(r - s) < Abs(b);
    if k != 0 {
      AbsMul(k, b);
      MulMonotone(Abs(k), Abs(b));
    }
  }

  lemma NegMul(q: int, b: int)
    ensures (-q) * b == -(q * b)
  {
  }

  lemma Distribute(d: int, q: int, b: int)
    ensures (d - q) * b == d * b - q * b
  {
  }

  lemma AbsMul(k: int, b: int)
    ensures Abs(k * b) == Abs(k) * Abs(b)
  {
    if k < 0 && b < 0 {
      assert k * b == (-k) * (-b);
    } else if k < 0 {
      assert k * b == -((-k) * b);
    } else if b < 0 {
      assert k * b == -(k * (-b));
    }
  }

  lemma MulMonotone(k: nat, m: nat)
    requires k >= 1
    ensures k * m >= m
  {
    assert k * m == (k - 1) * m + m;
  }

  /** Truncating division is symmetric under negating the dividend. */
  lemma DivNeg(a: int, b: int)
    requires b != 0
    ensures Div(-a, b) == -Div(a, b)
  {
    var q := Div(a, b);
    var r := a - q * b;
    NegMul(q, b);
    assert -a - (-q) * b == -r;
    if a == 0 {
      assert r == 0;
    }
    DivUnique(-a, b, -q);
  }

  /** Converting an `int64_t` to `int`: the value modulo 2^32, brought
      into the signed range (what GCC does for an out-of-range value). */
  function Wrap32(x: int): (r: int)
    ensures IsInt32(r)
    ensures (r - x) % 0x1_0000_0000 == 0
    ensures IsInt32(x) ==> r == x
  {
    var m := x % 0x1_0000_0000;
    if m <= INT32_MAX then m else m - 0x1_0000_0000
  }

  /** A product of two 32-bit values always fits in 64 bits, which is why
      the fixed-point multiply widens its left operand. */
  lemma ProductFitsInt64(x: int, y: int)
    requires IsInt32(x) && IsInt32(y)
    ensures IsInt64(x * y)
  {
    var ax: int, ay: int := Abs(x), Abs(y);
    assert ax <= 0x8000_0000 && ay <= 0x8000_0000;
    assert x * y == ax * ay || x * y == -(ax * ay);
    MulBound(ax, ay, 0x8000_0000);
  }

  lemma MulBound(a: nat, b: nat, c: nat)
    requires a <= c && b <= c
    ensures a * b <= c * c
  {
    assert a * b <= c * b;
    assert c * b <= c * c;
  }
}
