/** Checked arithmetic on native integers: every operation returns either the
    exact result, as a value of the result type R, or the kind of error that
    prevents it. Operand values are mathematical integers; `T.Contains(t)`
    says that t is a value of its C++ type T. */
module CheckedInteger {
  import opened Binary
  import opened CArith
  import opened IntTypes
  import opened CheckedResult

  // ---------------------------------------------------------------------
  // cast

  /** Converts t, a value of T, into R. The four signedness combinations are
      distinct branches; comparisons across signedness are exact. */
  function Cast(R: IntType, T: IntType, t: int): (r: Checked<int>)
    requires T.Contains(t)
    ensures r.Value? <==> R.Contains(t)
    ensures r.Value? ==> r.v == t
    ensures r == Error(DomainError) <==> !R.signed && t < 0
    ensures r == Error(PositiveOverflowError) <==> t > R.Max()
    ensures r == Error(NegativeOverflowError) <==> R.signed && t < R.Min()
  {
    match (R.signed, T.signed)
    case (true, true) =>
      if t > R.Max() then Error(PositiveOverflowError)
      else if t < R.Min() then Error(NegativeOverflowError)
      else Value(t)
    case (true, false) =>
      if t > R.Max() then Error(PositiveOverflowError)
      else Value(t)
    case (false, false) =>
      if t > R.Max() then Error(PositiveOverflowError)
      else Value(t)
    case (false, true) =>
      if t < 0 then Error(DomainError)
      else if t > R.Max() then Error(PositiveOverflowError)
      else Value(t)
  }

  // ---------------------------------------------------------------------
  // add

  /** Addition of two values of R, with the overflow tests rearranged so that
      they never overflow themselves. */
  function AddImpl(R: IntType, t: int, u: int): (r: Checked<int>)
    requires R.Contains(t) && R.Contains(u)
    ensures r == Exact(R, t + u)
  {
    if !R.signed then
      if R.Max() - u < t then Error(PositiveOverflowError)
      else Value(t + u)
    else
      if u > 0 && t > R.Max() - u then Error(PositiveOverflowError)
      else if u < 0 && t < R.Min() - u then Error(NegativeOverflowError)
      else Value(t + u)
  }

  /** The guard expressions of AddImpl are themselves values of R. */
  lemma AddGuardsInRange(R: IntType, u: int)
    requires R.Contains(u)
    ensures !R.signed ==> R.Contains(R.Max() - u)
    ensures u > 0 ==> R.Contains(R.Max() - u)
    ensures u < 0 ==> R.Contains(R.Min() - u)
  {
  }

  /** Casts both operands into R, returning the first failing cast, then adds. */
  function Add(R: IntType, T: IntType, U: IntType, t: int, u: int): (r: Checked<int>)
    requires T.Contains(t) && U.Contains(u)
    ensures !R.Contains(t) ==> r == Cast(R, T, t)
    ensures R.Contains(t) && !R.Contains(u) ==> r == Cast(R, U, u)
    ensures R.Contains(t) && R.Contains(u) ==> r == Exact(R, t + u)
    ensures r.Value? <==> R.Contains(t) && R.Contains(u) && R.Contains(t + u)
  {
    var rt := Cast(R, T, t);
    if rt.Error? then rt
    else
      var ru := Cast(R, U, u);
      if ru.Error? then ru
      else AddImpl(R, rt.v, ru.v)
  }

  // ---------------------------------------------------------------------
  // subtract

  /** Subtraction of two values of R. An unsigned result below zero is a
      range error. For a signed R the two overflow kinds are reported the
      other way round: a result below the minimum is labelled a positive
      overflow and one above the maximum a negative overflow. */
  function SubtractImpl(R: IntType, t: int, u: int): (r: Checked<int>)
    requires R.Contains(t) && R.Contains(u)
    ensures r.Value? <==> R.Contains(t - u)
    ensures r.Value? ==> r.v == t - u
    ensures !R.signed && r.Error? ==> r.kind == RangeError
    ensures R.signed && t - u < R.Min() ==> r == Error(PositiveOverflowError)
    ensures R.signed && t - u > R.Max() ==> r == Error(NegativeOverflowError)
  {
    if !R.signed then
      if t < u then Error(RangeError)
      else Value(t - u)
    else
      if u > 0 && t < R.Min() + u then Error(PositiveOverflowError)
      else if u < 0 && t > R.Max() + u then Error(NegativeOverflowError)
      else Value(t - u)
  }

  /** The guard expressions of the signed SubtractImpl are values of R. */
  lemma SubtractGuardsInRange(R: IntType, u: int)
    requires R.Contains(u)
    ensures u > 0 ==> R.Contains(R.Min() + u)
    ensures u < 0 ==> R.Contains(R.Max() + u)
  {
  }

  /** Casts both operands into R, returning the first failing cast, then
      subtracts. */
  function Subtract(R: IntType, T: IntType, U: IntType, t: int, u: int): (r: Checked<int>)
    requires T.Contains(t) && U.Contains(u)
    ensures !R.Contains(t) ==> r == Cast(R, T, t)
    ensures R.Contains(t) && !R.Contains(u) ==> r == Cast(R, U, u)
    ensures r.Value? <==> R.Contains(t) && R.Contains(u) && R.Contains(t - u)
    ensures r.Value? ==> r.v == t - u
    ensures R.Contains(t) && R.Contains(u) && !R.signed && t < u ==> r == Error(RangeError)
    ensures R.Contains(t) && R.Contains(u) && R.signed && t - u < R.Min() ==> r == Error(PositiveOverflowError)
    ensures R.Contains(t) && R.Contains(u) && R.signed && t - u > R.Max() ==> r == Error(NegativeOverflowError)
  {
    var rt := Cast(R, T, t);
    if rt.Error? then rt
    else
      var ru := Cast(R, U, u);
      if ru.Error? then ru
      else SubtractImpl(R, t, u)
  }

  // ---------------------------------------------------------------------
  // multiply

  /** The multiplication selector: R is wider than half of `std::uintmax_t`.
      When it is not, the magnitudes of two values of R multiply within the
      value bits of `std::intmax_t` (signed R) or `std::uintmax_t` (unsigned R). */
  function SlowMultiplySelected(R: IntType): (slow: bool)
    ensures !slow && R.signed ==> R.digits + R.digits < IntMax.digits
    ensures !slow && !R.signed ==> R.digits + R.digits <= UIntMax.digits
    ensures slow && R.signed ==> R.digits + R.digits >= IntMax.digits
    ensures slow && !R.signed ==> R.digits + R.digits > UIntMax.digits
  {
    R.Bits() > UIntMax.Bits() / 2
  }

  /** Unsigned R, narrow enough to multiply in `std::uintmax_t` and compare
      the exact product with R's maximum. */
  function MultiplyUnsignedFast(R: IntType, t: int, u: int): (r: Checked<int>)
    requires !R.signed && !SlowMultiplySelected(R) && R.Contains(t) && R.Contains(u)
    ensures r == Exact(R, t * u)
  {
    MulMonotone(0, t, u);
    if t * u > R.Max() then Error(PositiveOverflowError)
    else Value(t * u)
  }

  /** Unsigned R, too wide to widen: overflow is detected by dividing R's
      maximum by u first. */
  function MultiplyUnsignedSlow(R: IntType, t: int, u: int): (r: Checked<int>)
    requires !R.signed && R.Contains(t) && R.Contains(u)
    ensures r == Exact(R, t * u)
  {
    MulMonotone(0, t, u);
    if u > 0 then
      TruncDivAbove(t, R.Max(), u);
      if t > TruncDiv(R.Max(), u) then Error(PositiveOverflowError)
      else Value(t * u)
    else Value(t * u)
  }

  /** Signed R, narrow enough to multiply in `std::intmax_t` and compare the
      exact product with both ends of R's range. */
  function MultiplySignedFast(R: IntType, t: int, u: int): (r: Checked<int>)
    requires R.signed && !SlowMultiplySelected(R) && R.Contains(t) && R.Contains(u)
    ensures r == Exact(R, t * u)
  {
    if t * u > R.Max() then Error(PositiveOverflowError)
    else if t * u < R.Min() then Error(NegativeOverflowError)
    else Value(t * u)
  }

  /** Signed R, too wide to widen: one division pre-check per sign quadrant
      of (t, u). Every division has a non-zero divisor. */
  function MultiplySignedSlow(R: IntType, t: int, u: int): (r: Checked<int>)
    requires R.signed && R.Contains(t) && R.Contains(u)
    ensures r == Exact(R, t * u)
  {
    if t > 0 then
      if u > 0 then
        TruncDivAbove(t, R.Max(), u);
        if t > TruncDiv(R.Max(), u) then Error(PositiveOverflowError)
        else Value(t * u)
      else
        TruncDivBelow(u, R.Min(), t);
        assert u * t == t * u;
        MulMonotone(u, 0, t);
        if u < TruncDiv(R.Min(), t) then Error(NegativeOverflowError)
        else Value(t * u)
    else
      if u > 0 then
        TruncDivBelow(t, R.Min(), u);
        MulMonotone(t, 0, u);
        if t < TruncDiv(R.Min(), u) then Error(NegativeOverflowError)
        else Value(t * u)
      else
        TruncDivBelowNegativeDivisor(u, R.Max(), t);
        assert u * t == t * u;
        assert t * u == (-t) * (-u);
        MulMonotone(0, -t, -u);
        if t != 0 && u < TruncDiv(R.Max(), t) then Error(PositiveOverflowError)
        else Value(t * u)
  }

  /** Casts both operands into R, returning the first failing cast, then
      multiplies by the fast or the slow method according to R's width. */
  function Multiply(R: IntType, T: IntType, U: IntType, t: int, u: int): (r: Checked<int>)
    requires T.Contains(t) && U.Contains(u)
    ensures !R.Contains(t) ==> r == Cast(R, T, t)
    ensures R.Contains(t) && !R.Contains(u) ==> r == Cast(R, U, u)
    ensures R.Contains(t) && R.Contains(u) ==> r == Exact(R, t * u)
    ensures r.Value? <==> R.Contains(t) && R.Contains(u) && R.Contains(t * u)
  {
    var rt := Cast(R, T, t);
    if rt.Error? then rt
    else
      var ru := Cast(R, U, u);
      if ru.Error? then ru
      else if !R.signed then
        if SlowMultiplySelected(R) then MultiplyUnsignedSlow(R, t, u)
        else MultiplyUnsignedFast(R, t, u)
      else
        if SlowMultiplySelected(R) then MultiplySignedSlow(R, t, u)
        else MultiplySignedFast(R, t, u)
  }

  // ---------------------------------------------------------------------
  // divide

  /** The quotient of two values of R is a value of R, except for the
      two's complement minimum divided by -1. */
  lemma QuotientInRange(R: IntType, t: int, u: int)
    requires R.Contains(t) && R.Contains(u) && u != 0
    ensures R.Contains(TruncDiv(t, u)) <==> !(R.signed && t == R.Min() && u == -1)
  {
    var q := TruncDiv(t, u);
    if u == 1 {
      assert q == Abs(t) / 1 || q == -(Abs(t) / 1);
      assert q == t;
    } else if u == -1 {
      assert q == Abs(t) / 1 || q == -(Abs(t) / 1);
      assert q == -t;
    } else {
      TruncDivision(t, u);
      MulMonotone(2, Abs(u), Abs(q));
      assert 2 * Abs(q) <= Abs(t);
    }
  }

  /** Division of two values of R, u non-zero. */
  function DivideImpl(R: IntType, t: int, u: int): (r: Checked<int>)
    requires R.Contains(t) && R.Contains(u) && u != 0
    ensures r.Value? <==> R.Contains(TruncDiv(t, u))
    ensures r.Value? ==> r.v == TruncDiv(t, u)
    ensures r.Error? ==> r.kind == RangeError && R.signed && t == R.Min() && u == -1
  {
    QuotientInRange(R, t, u);
    if !R.signed then Value(TruncDiv(t, u))
    else if u == -1 && t == R.Min() then Error(RangeError)
    else Value(TruncDiv(t, u))
  }

  /** Division: a zero divisor is a domain error, checked before anything
      else; a failure to cast either operand into R is reported as a domain
      error too, whatever the cast's own error was. */
  function Divide(R: IntType, T: IntType, U: IntType, t: int, u: int): (r: Checked<int>)
    requires T.Contains(t) && U.Contains(u)
    ensures u == 0 ==> r == Error(DomainError)
    ensures !(R.Contains(t) && R.Contains(u)) ==> r == Error(DomainError)
    ensures r.Value? <==> u != 0 && R.Contains(t) && R.Contains(u) && R.Contains(TruncDiv(t, u))
    ensures r.Value? ==> r.v == TruncDiv(t, u)
    ensures u != 0 && R.Contains(t) && R.Contains(u) && r.Error? ==>
              r == Error(RangeError) && R.signed && t == R.Min() && u == -1
  {
    if u == 0 then Error(DomainError)
    else
      var tx := Cast(R, T, t);
      var ux := Cast(R, U, u);
      if tx.Error? || ux.Error? then Error(DomainError)
      else DivideImpl(R, tx.v, ux.v)
  }

  // ---------------------------------------------------------------------
  // modulus

  /** `abs` of a value x of U, returned in the unsigned type of U's width.
      The minimum of a signed U is left as it is and then converted to
      unsigned, which adds 2^Bits. */
  function UnsignedAbs(U: IntType, x: int): (r: nat)
    requires U.Contains(x)
    ensures r == Abs(x)
    ensures U.Unsigned().Contains(r)
  {
    var y := if x < 0 && x != U.Min() then -x else x;
    assert U.signed ==> Pow2(U.Bits()) == 2 * Pow2(U.digits);
    // conversion to the unsigned type of the same width (modulo 2^Bits)
    if y < 0 then y + Pow2(U.Bits()) else y
  }

  /** Remainder, computed as `t % abs(u)` so that no hidden division of the
      minimum by -1 can trap. The result is C's `t % u`: it has the sign of
      the dividend and is smaller than the divisor in magnitude. */
  function Modulus(R: IntType, T: IntType, U: IntType, t: int, u: int): (r: Checked<int>)
    requires T.Contains(t) && U.Contains(u)
    ensures r.Error? <==> u == 0
    ensures r.Error? ==> r.kind == DomainError
    ensures r.Value? ==> r.v == TruncRem(t, u)
    ensures r.Value? ==> t - r.v == TruncDiv(t, u) * u
    ensures r.Value? ==> Abs(r.v) < Abs(u) && Abs(r.v) <= Abs(t)
    ensures r.Value? ==> r.v == 0 || (r.v < 0 <==> t < 0)
  {
    if u == 0 then Error(DomainError)
    else
      TruncDivision(t, u);
      Value(TruncRem(t, UnsignedAbs(U, u)))
  }

  // ---------------------------------------------------------------------
  // comparisons

  /** t < u, decided once both operands are values of R. */
  function LessThan(R: IntType, T: IntType, U: IntType, t: int, u: int): (r: Checked<bool>)
    requires T.Contains(t) && U.Contains(u)
    ensures !R.Contains(t) ==> r == Error(Cast(R, T, t).kind)
    ensures R.Contains(t) && !R.Contains(u) ==> r == Error(Cast(R, U, u).kind)
    ensures R.Contains(t) && R.Contains(u) ==> r == Value(t < u)
  {
    var tx := Cast(R, T, t);
    if tx.Error? then Error(tx.kind)
    else
      var ux := Cast(R, U, u);
      if ux.Error? then Error(ux.kind)
      else Value(tx.v < ux.v)
  }

  /** t > u, decided once both operands are values of R. */
  function GreaterThan(R: IntType, T: IntType, U: IntType, t: int, u: int): (r: Checked<bool>)
    requires T.Contains(t) && U.Contains(u)
    ensures !R.Contains(t) ==> r == Error(Cast(R, T, t).kind)
    ensures R.Contains(t) && !R.Contains(u) ==> r == Error(Cast(R, U, u).kind)
    ensures R.Contains(t) && R.Contains(u) ==> r == Value(t > u)
  {
    var tx := Cast(R, T, t);
    if tx.Error? then Error(tx.kind)
    else
      var ux := Cast(R, U, u);
      if ux.Error? then Error(ux.kind)
      else Value(tx.v > ux.v)
  }

  /** t == u, decided once both operands are values of R. */
  function Equal(R: IntType, T: IntType, U: IntType, t: int, u: int): (r: Checked<bool>)
    requires T.Contains(t) && U.Contains(u)
    ensures !R.Contains(t) ==> r == Error(Cast(R, T, t).kind)
    ensures R.Contains(t) && !R.Contains(u) ==> r == Error(Cast(R, U, u).kind)
    ensures R.Contains(t) && R.Contains(u) ==> r == Value(t == u)
  {
    var tx := Cast(R, T, t);
    if tx.Error? then Error(tx.kind)
    else
      var ux := Cast(R, U, u);
      if ux.Error? then Error(ux.kind)
      else Value(tx.v == ux.v)
  }

  // ---------------------------------------------------------------------
  // shifts

  /** Orders a signed shiftee type above its unsigned counterpart; the signed
      left shift re-enters LeftShift with the unsigned type. */
  function SignRank(T: IntType): nat { if T.signed then 1 else 0 }

  /** A positive t shifted left by u fits in R exactly when its bit length
      plus u is at most R's value bits. */
  lemma ShiftedFits(R: IntType, t: int, u: nat)
    requires t > 0
    ensures R.Contains(t * Pow2(u)) <==> SignificantBits(t) + u <= R.digits
  {
    SignificantBitsShift(t, u);
    SignificantBitsBound(t * Pow2(u), R.digits);
    MulMonotone(1, t, Pow2(u));
  }

  /** Left shift of a non-zero t by 0 < u <= digits(R). An unsigned t is
      refused when the shifted value would need more than R's value bits; a
      non-negative signed t is shifted as the unsigned type of its width; a
      negative t is undefined behaviour. */
  function LeftShiftDetail(R: IntType, T: IntType, U: IntType, t: int, u: int): (r: Checked<int>)
    requires T.Contains(t) && U.Contains(u)
    requires 0 < u <= R.digits && t != 0
    decreases SignRank(T), 0
    ensures t < 0 ==> r == Error(UndefinedBehavior)
    ensures t > 0 ==> (r.Value? <==> R.Contains(t * Pow2(u)))
    ensures r.Value? ==> r.v == t * Pow2(u)
    ensures r.Error? ==> r.kind == UndefinedBehavior
  {
    if !T.signed then
      ShiftedFits(R, t, u);
      if u > R.digits - SignificantBits(t) then Error(UndefinedBehavior)
      else Value(t * Pow2(u))
    else if t >= 0 then
      LeftShift(R, T.Unsigned(), U, t, u)
    else
      Error(UndefinedBehavior)
  }

  /** Left shift: the shift amount is checked first (zero returns t as it
      is, negative or above R's value bits is implementation defined), then
      a zero t gives zero, then LeftShiftDetail decides. */
  function LeftShift(R: IntType, T: IntType, U: IntType, t: int, u: int): (r: Checked<int>)
    requires T.Contains(t) && U.Contains(u)
    decreases SignRank(T), 1
    ensures u == 0 ==> r == Value(t)
    ensures u < 0 || u > R.digits ==> r == Error(ImplementationDefinedBehavior)
    ensures 0 < u <= R.digits && t < 0 ==> r == Error(UndefinedBehavior)
    ensures 0 < u <= R.digits && t >= 0 ==> (r.Value? <==> R.Contains(t * Pow2(u)))
    ensures 0 < u <= R.digits && r.Value? ==> r.v == t * Pow2(u)
    ensures 0 < u <= R.digits && r.Error? ==> r.kind == UndefinedBehavior
  {
    if u == 0 then Value(t)
    else if u < 0 then Error(ImplementationDefinedBehavior)
    else if u > R.digits then Error(ImplementationDefinedBehavior)
    else if t == 0 then Cast(R, T, t)
    else LeftShiftDetail(R, T, U, t, u)
  }

  /** Right shift of a non-zero t by 0 < u <= digits(R): a negative t is
      implementation defined; otherwise the integral part of t / 2^u is cast
      into R. */
  function RightShiftDetail(R: IntType, T: IntType, U: IntType, t: int, u: int): (r: Checked<int>)
    requires T.Contains(t) && U.Contains(u)
    requires 0 < u <= R.digits && t != 0
    ensures t < 0 ==> r == Error(ImplementationDefinedBehavior)
    ensures t > 0 ==> (r.Value? <==> R.Contains(t / Pow2(u)))
    ensures r.Value? ==> r.v * Pow2(u) <= t < (r.v + 1) * Pow2(u)
    ensures t > 0 && r.Error? ==> r.kind == PositiveOverflowError
  {
    if !T.signed || t >= 0 then
      var q := t / Pow2(u);
      FloorDivBounds(t, Pow2(u));
      assert T.Contains(q);
      Cast(R, T, q)
    else
      Error(ImplementationDefinedBehavior)
  }

  /** Right shift: the same checks on the shift amount and on a zero t as
      LeftShift, then RightShiftDetail decides. */
  function RightShift(R: IntType, T: IntType, U: IntType, t: int, u: int): (r: Checked<int>)
    requires T.Contains(t) && U.Contains(u)
    ensures u == 0 ==> r == Value(t)
    ensures u < 0 || u > R.digits ==> r == Error(ImplementationDefinedBehavior)
    ensures 0 < u <= R.digits && t < 0 ==> r == Error(ImplementationDefinedBehavior)
    ensures 0 < u <= R.digits && t >= 0 ==> (r.Value? <==> R.Contains(t / Pow2(u)))
    ensures 0 < u && r.Value? ==> r.v * Pow2(u) <= t < (r.v + 1) * Pow2(u)
    ensures 0 < u <= R.digits && t >= 0 && r.Error? ==> r.kind == PositiveOverflowError
  {
    if u == 0 then Value(t)
    else if u < 0 then Error(ImplementationDefinedBehavior)
    else if u > R.digits then Error(ImplementationDefinedBehavior)
    else if t == 0 then
      assert 0 * Pow2(u) == 0 && 1 * Pow2(u) == Pow2(u) && 0 / Pow2(u) == 0;
      Cast(R, T, 0)
    else RightShiftDetail(R, T, U, t, u)
  }

  // ---------------------------------------------------------------------
  // bitwise operations (non-negative operands)

  /** t | u, refused when the longer operand has more significant bits than
      R is wide. The test is exact: it refuses precisely the results that
      need more than R's width. An accepted result is converted into R, so
      in a signed R a result with the sign bit set reads as negative. */
  function BitwiseOr(R: IntType, t: nat, u: nat): (r: Checked<int>)
    ensures r.Value? <==> SignificantBits(BitOr(t, u)) <= R.Bits()
    ensures r.Value? ==> R.Contains(r.v)
    ensures r.Value? && R.Contains(BitOr(t, u)) ==> r.v == BitOr(t, u)
    ensures r.Value? && !R.Contains(BitOr(t, u)) ==> r.v == BitOr(t, u) - Pow2(R.Bits())
    ensures r.Error? ==> r.kind == PositiveOverflowError
    ensures !R.signed ==> (r.Value? <==> R.Contains(BitOr(t, u)))
  {
    BitOrWidth(t, u);
    SignificantBitsBound(BitOr(t, u), R.Bits());
    var resultSize := Max(SignificantBits(t), SignificantBits(u));
    if resultSize > R.Bits() then Error(PositiveOverflowError)
    else Value(ConvertInto(R, BitOr(t, u)))
  }

  /** t ^ u, refused when the longer operand has more significant bits than
      R is wide; an accepted result is converted into R. */
  function BitwiseXor(R: IntType, t: nat, u: nat): (r: Checked<int>)
    ensures r.Value? <==> Max(SignificantBits(t), SignificantBits(u)) <= R.Bits()
    ensures r.Value? ==> SignificantBits(BitXor(t, u)) <= R.Bits() && R.Contains(r.v)
    ensures r.Value? && R.Contains(BitXor(t, u)) ==> r.v == BitXor(t, u)
    ensures r.Value? && !R.Contains(BitXor(t, u)) ==> r.v == BitXor(t, u) - Pow2(R.Bits())
    ensures r.Error? ==> r.kind == PositiveOverflowError
    ensures !R.signed && r.Value? ==> r.v == BitXor(t, u)
  {
    BitXorWidth(t, u);
    SignificantBitsBound(BitXor(t, u), R.Bits());
    var resultSize := Max(SignificantBits(t), SignificantBits(u));
    if resultSize > R.Bits() then Error(PositiveOverflowError)
    else Value(ConvertInto(R, BitXor(t, u)))
  }

  /** t & u, refused when the shorter operand has more significant bits than
      R is wide; an accepted result is converted into R. */
  function BitwiseAnd(R: IntType, t: nat, u: nat): (r: Checked<int>)
    ensures r.Value? <==> Min(SignificantBits(t), SignificantBits(u)) <= R.Bits()
    ensures r.Value? ==> SignificantBits(BitAnd(t, u)) <= R.Bits() && R.Contains(r.v)
    ensures r.Value? && R.Contains(BitAnd(t, u)) ==> r.v == BitAnd(t, u)
    ensures r.Value? && !R.Contains(BitAnd(t, u)) ==> r.v == BitAnd(t, u) - Pow2(R.Bits())
    ensures r.Error? ==> r.kind == PositiveOverflowError
    ensures !R.signed && r.Value? ==> r.v == BitAnd(t, u)
  {
    BitAndWidth(t, u);
    SignificantBitsBound(BitAnd(t, u), R.Bits());
    var resultSize := Min(SignificantBits(t), SignificantBits(u));
    if resultSize > R.Bits() then Error(PositiveOverflowError)
    else Value(ConvertInto(R, BitAnd(t, u)))
  }
}
