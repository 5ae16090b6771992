/** Properties that relate the checked operations to each other and to the
    widest native types. */
module CheckedProperties {
  import opened Binary
  import opened CArith
  import opened IntTypes
  import opened CheckedResult
  import opened CheckedInteger

  /** A widening cast loses nothing: v goes into R and comes back into T
      unchanged. */
  lemma CastWidening(R: IntType, T: IntType, v: int)
    requires T.Contains(v)
    requires R.Min() <= T.Min() && T.Max() <= R.Max()
    ensures Cast(R, T, v) == Value(v)
    ensures Cast(T, R, v) == Value(v)
  {
  }

  /** Subtracting u undoes a successful addition of u, and adding u undoes
      a successful subtraction of u. */
  lemma AddSubtractInverse(R: IntType, t: int, u: int)
    requires R.Contains(t) && R.Contains(u)
    ensures Add(R, R, R, t, u).Value? ==> Subtract(R, R, R, Add(R, R, R, t, u).v, u) == Value(t)
    ensures Subtract(R, R, R, t, u).Value? ==> Add(R, R, R, Subtract(R, R, R, t, u).v, u) == Value(t)
  {
  }

  /** The fast multiplication paths never overflow their widened product:
      two values of a type at most half as wide as `std::intmax_t` multiply
      to a value of `std::intmax_t` (signed) or `std::uintmax_t` (unsigned). */
  lemma FastProductFits(R: IntType, t: int, u: int)
    requires !SlowMultiplySelected(R) && R.Contains(t) && R.Contains(u)
    ensures R.signed ==> IntMax.Contains(t * u)
    ensures !R.signed ==> UIntMax.Contains(t * u)
  {
    if R.signed {
      SignedProductBound(R.digits, 63, t, u);
    } else {
      UnsignedProductBound(R.digits, 64, t, u);
    }
  }

  /** |t|, |u| <= 2^d and 2d < w give -2^w <= t * u < 2^w. */
  lemma SignedProductBound(d: nat, w: nat, t: int, u: int)
    requires d + d < w
    requires Abs(t) <= Pow2(d) && Abs(u) <= Pow2(d)
    ensures -(Pow2(w) as int) <= t * u < Pow2(w)
  {
    Pow2Add(d, d);
    ProductMagnitude(t, u, Pow2(d));
    Pow2Monotone(d + d + 1, w);
  }

  /** Factors of magnitude at most p have a product of magnitude at most p * p. */
  lemma ProductMagnitude(t: int, u: int, p: nat)
    requires Abs(t) <= p && Abs(u) <= p
    ensures -(p * p) <= t * u <= p * p
  {
    var X, Y := Abs(t), Abs(u);
    SignedProduct(t, u, X, Y);
    MulMonotone(X, p, Y);
    MulMonotone(Y, p, p);
    assert p * Y == Y * p;
  }

  /** 0 <= t, u < 2^d and 2d <= w give 0 <= t * u < 2^w. */
  lemma UnsignedProductBound(d: nat, w: nat, t: int, u: int)
    requires d + d <= w
    requires 0 <= t < Pow2(d) && 0 <= u < Pow2(d)
    ensures 0 <= t * u < Pow2(w)
  {
    Pow2Add(d, d);
    ProductBelow(t, u, Pow2(d));
    Pow2Monotone(d + d, w);
  }

  /** Factors in [0, p) have a product in [0, p * p). */
  lemma ProductBelow(t: int, u: int, p: nat)
    requires 0 <= t < p && 0 <= u < p
    ensures 0 <= t * u < p * p
  {
    MulMonotone(0, t, u);
    MulMonotone(u, p, t);
    MulMonotone(t + 1, p, p);
    assert t * p == p * t;
  }

  /** Where the fast path applies, the slow path gives the same outcome, so
      the size selector never changes a result. */
  lemma MultiplyPathsAgree(R: IntType, t: int, u: int)
    requires !SlowMultiplySelected(R) && R.Contains(t) && R.Contains(u)
    ensures !R.signed ==> MultiplyUnsignedFast(R, t, u) == MultiplyUnsignedSlow(R, t, u)
    ensures R.signed ==> MultiplySignedFast(R, t, u) == MultiplySignedSlow(R, t, u)
  {
  }

  /** The division identity: when t / u succeeds, (t / u) * u + t % u
      rebuilds t through the checked multiply and add, with no error on
      the way. */
  lemma DivisionIdentity(R: IntType, t: int, u: int)
    requires R.Contains(t) && R.Contains(u) && u != 0
    requires Divide(R, R, R, t, u).Value?
    ensures var q := Divide(R, R, R, t, u).v;
            var m := Modulus(R, R, R, t, u);
            && m.Value?
            && Multiply(R, R, R, q, u) == Value(q * u)
            && Add(R, R, R, q * u, m.v) == Value(t)
  {
    TruncDivision(t, u);
    var q := TruncDiv(t, u);
    var m := TruncRem(t, u);
    assert q * u == t - m;
  }

  /** The remainder of the minimum by -1 is 0 (no trap), while the quotient
      is refused as a range error. */
  lemma MinimumByMinusOne(R: IntType)
    requires R.signed
    ensures Modulus(R, R, R, R.Min(), -1) == Value(0)
    ensures Divide(R, R, R, R.Min(), -1) == Error(RangeError)
  {
    assert TruncRem(R.Min(), -1) == 0;
  }

  /** When both operands are values of R, exactly one of less_than,
      greater_than and equal holds. */
  lemma ComparisonTrichotomy(R: IntType, T: IntType, U: IntType, t: int, u: int)
    requires T.Contains(t) && U.Contains(u)
    requires R.Contains(t) && R.Contains(u)
    ensures LessThan(R, T, U, t, u).Value? && GreaterThan(R, T, U, t, u).Value? && Equal(R, T, U, t, u).Value?
    ensures var lt, gt, eq := LessThan(R, T, U, t, u).v, GreaterThan(R, T, U, t, u).v, Equal(R, T, U, t, u).v;
            (lt && !gt && !eq) || (!lt && gt && !eq) || (!lt && !gt && eq)
  {
  }

  /** less_than(t, u) is greater_than(u, t), errors included, unless both
      operands fail their casts (each comparison then reports its own first
      operand's error). */
  lemma LessThanIsSwappedGreaterThan(R: IntType, T: IntType, U: IntType, t: int, u: int)
    requires T.Contains(t) && U.Contains(u)
    requires R.Contains(t) || R.Contains(u)
    ensures LessThan(R, T, U, t, u) == GreaterThan(R, U, T, u, t)
  {
  }

  /** Shifting a non-zero value left by all of R's value bits is always
      refused as undefined behaviour. */
  lemma LeftShiftByDigits(R: IntType, T: IntType, U: IntType, t: int)
    requires T.Contains(t) && U.Contains(R.digits)
    requires R.digits > 0 && t != 0
    ensures LeftShift(R, T, U, t, R.digits) == Error(UndefinedBehavior)
  {
    if t > 0 {
      MulMonotone(1, t, Pow2(R.digits));
    }
  }

  /** Concrete cases: 120 + 10 overflows int8; 3 - 5 in uint8 is a range
      error; INT32_MIN / -1 is a range error; -1 cast to uint16 is a domain
      error. */
  lemma ArithmeticExamples()
    ensures Add(Int8, Int8, Int8, 120, 10) == Error(PositiveOverflowError)
    ensures Subtract(UInt8, UInt8, UInt8, 3, 5) == Error(RangeError)
    ensures Divide(Int32, Int32, Int32, Int32.Min(), -1) == Error(RangeError)
    ensures Cast(UInt16, Int32, -1) == Error(DomainError)
  {
    assert Pow2(7) == 128;
  }

  /** Concrete cases: bitwise or in uint8 accepts 200 | 200 and 255 | 1 and
      refuses a 9-bit operand. */
  lemma BitwiseOrExamples()
    ensures BitwiseOr(UInt8, 200, 200) == Value(200)
    ensures BitwiseOr(UInt8, 255, 1) == Value(255)
    ensures BitwiseOr(UInt8, 256, 1) == Error(PositiveOverflowError)
  {
    BitOrIdempotent(200);
    assert SignificantBits(200) == 8;
    assert BitOr(255, 1) == 2 * BitOr(127, 0) + 1;
    BitOrZero(127);
    assert SignificantBits(256) == 9;
  }

  /** The and-width test looks only at the operands: 256 & 767 is 0, which
      fits any type, but both operands have 9 significant bits, so uint8
      refuses it. */
  lemma BitwiseAndIsConservative()
    ensures BitAnd(256, 767) == 0
    ensures BitwiseAnd(UInt8, 256, 767) == Error(PositiveOverflowError)
  {
    assert SignificantBits(256) == 9;
    assert SignificantBits(767) == 10;
  }
}
