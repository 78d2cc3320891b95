/** The fixed-point helpers of threads/utils.c.  Unlike the macros of
    fixed_point.h these are C functions returning `int`, so the 64-bit
    results of the multiply and divide are narrowed back to 32 bits. */
module FpUtils {
  import opened CInt
  import FixedPoint

  const THREADS_FP_FRAG: int := ((1 as bv32) << 14) as int

  function FpFromInt(x: int): int { x * THREADS_FP_FRAG }

  function FpAdd(fx: int, fy: int): int { fx + fy }

  function FpMul(x: int, y: int): int { Wrap32(Div(x * y, THREADS_FP_FRAG)) }

  function FpDiv(x: int, y: int): int
    requires y != 0
  {
    Wrap32(Div(x * THREADS_FP_FRAG, y))
  }

  function FpToIntRounded(x: int): int
  {
    if x >= 0 then
      Div(x + THREADS_FP_FRAG / 2, THREADS_FP_FRAG)
    else
      Div(x - THREADS_FP_FRAG / 2, THREADS_FP_FRAG)
  }

  /** utils.c and fixed_point.h agree on the factor and on every
      operation, up to the narrowing of the 64-bit results. */
  lemma AgreesWithMacros(x: int, y: int)
    ensures THREADS_FP_FRAG == FixedPoint.FACTOR
    ensures FpFromInt(x) == FixedPoint.IntToFixed(x)
    ensures FpAdd(x, y) == FixedPoint.FixedAdd(x, y)
    ensures FpMul(x, y) == Wrap32(FixedPoint.FixedMultiply(x, y))
    ensures y != 0 ==> FpDiv(x, y) == Wrap32(FixedPoint.FixedDivide(x, y))
    ensures FpToIntRounded(x) == FixedPoint.FixedToNearestInt(x)
  {
  }

  /** Where the macro's 64-bit result is itself a 32-bit value the
      narrowing is invisible, so the function and the macro coincide. */
  lemma MulMatchesMacroInRange(x: int, y: int)
    requires IsInt32(FixedPoint.FixedMultiply(x, y))
    ensures FpMul(x, y) == FixedPoint.FixedMultiply(x, y)
  {
  }

  lemma FromIntScales(x: int)
    ensures FpFromInt(x) == x * 16384
    ensures x >= 0 ==> FpFromInt(x) >= x
  {
  }

  lemma RoundedRoundTrip(n: int)
    ensures FpToIntRounded(FpFromInt(n)) == n
  {
    FixedPoint.NearestRoundTrip(n);
  }

  /** Rounding is half away from zero and symmetric under negation. */
  lemma RoundedIsOddAndNearest(x: int)
    ensures FpToIntRounded(-x) == -FpToIntRounded(x)
    ensures 2 * Abs(x - FpFromInt(FpToIntRounded(x))) <= THREADS_FP_FRAG
    ensures 2 * Abs(x - FpFromInt(FpToIntRounded(x))) == THREADS_FP_FRAG ==>
              Abs(FpFromInt(FpToIntRounded(x))) > Abs(x)
  {
    FixedPoint.NearestIsOdd(x);
    FixedPoint.NearestRounds(x);
  }

  lemma MulByOne(x: int)
    requires IsInt32(x)
    ensures FpMul(x, FpFromInt(1)) == x
  {
    FixedPoint.MultiplyByOne(x);
  }

  lemma DivByOne(x: int)
    requires IsInt32(x)
    ensures FpDiv(x, FpFromInt(1)) == x
  {
    FixedPoint.DivideByOne(x);
  }

  /** The narrowing is observable: a product too large for 32 bits wraps. */
  lemma MulWrapsOutOfRange()
    ensures FpMul(FpFromInt(0x1_0000), FpFromInt(0x1_0000)) == 0
    ensures FixedPoint.FixedMultiply(FpFromInt(0x1_0000), FpFromInt(0x1_0000)) == 0x1_0000_0000 * 16384
  {
  }
}
