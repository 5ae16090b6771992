/** Five places where the checked operations do not do what the library
    intends. Subtract labels its overflows against the error taxonomy, and
    bitwise or accepts a result its signed R does not hold; for these two
    this file holds both the as-written exhibit and the corrected
    definition. Left shift loses bits or runs an undefined native shift,
    right shift runs an undefined native shift, and modulus loses the
    dividend's sign; for these three the as-written definitions and their
    exhibits live here, and the corrected definitions are
    CheckedInteger.LeftShift, CheckedInteger.RightShift and
    CheckedInteger.Modulus. */
module Findings {
  import opened Binary
  import opened CArith
  import opened IntTypes
  import opened CheckedResult
  import opened CheckedInteger

  // ---------------------------------------------------------------------
  // signed subtract swaps the two overflow kinds

  /** As written: -128 - 1 in int8 lies below the minimum but is reported as
      a positive overflow, and 127 - (-1) lies above the maximum but is
      reported as a negative overflow. */
  lemma SubtractSwapsOverflowKinds()
    ensures -128 - 1 < Int8.Min() && Subtract(Int8, Int8, Int8, -128, 1) == Error(PositiveOverflowError)
    ensures 127 - -1 > Int8.Max() && Subtract(Int8, Int8, Int8, 127, -1) == Error(NegativeOverflowError)
  {
    assert Pow2(7) == 128;
  }

  /** Subtraction with the overflow kind following the direction of the true
      result, as it does for add and multiply. */
  function SubtractCorrected(R: IntType, T: IntType, U: IntType, t: int, u: int): (r: Checked<int>)
    requires T.Contains(t) && U.Contains(u)
    ensures !R.Contains(t) ==> r == Cast(R, T, t)
    ensures R.Contains(t) && !R.Contains(u) ==> r == Cast(R, U, u)
    ensures R.Contains(t) && R.Contains(u) && R.signed ==> r == Exact(R, t - u)
    ensures R.Contains(t) && R.Contains(u) && !R.signed ==> r == Subtract(R, T, U, t, u)
  {
    var rt := Cast(R, T, t);
    if rt.Error? then rt
    else
      var ru := Cast(R, U, u);
      if ru.Error? then ru
      else if !R.signed then
        if t < u then Error(RangeError) else Value(t - u)
      else
        if u > 0 && t < R.Min() + u then Error(NegativeOverflowError)
        else if u < 0 && t > R.Max() + u then Error(PositiveOverflowError)
        else Value(t - u)
  }

  // ---------------------------------------------------------------------
  // bitwise operations into a signed type accept one bit too many

  /** As written: 128 | 0 has 8 significant bits, which the test compares
      with the full width of int8 (8 bits, sign bit included), so it is
      accepted; 128 is not a value of int8, and its conversion into int8
      gives -128. */
  lemma BitwiseOrSignedOutOfRange()
    ensures BitwiseOr(Int8, 128, 0) == Value(-128)
    ensures !Int8.Contains(128)
  {
    BitOrZero(128);
    assert SignificantBits(128) == 8;
    assert Pow2(7) == 128 && Pow2(8) == 256;
  }

  /** As written: xor and and share or's test, so 255 ^ 0 and 255 & 255
      are accepted into int8 and give -1. */
  lemma BitwiseXorAndSignedOutOfRange()
    ensures BitwiseXor(Int8, 255, 0) == Value(-1)
    ensures BitwiseAnd(Int8, 255, 255) == Value(-1)
  {
    BitXorZero(255);
    BitAndIdempotent(255);
    assert SignificantBits(255) == 8;
    assert Pow2(7) == 128 && Pow2(8) == 256;
  }

  /** t | u with the width test made against R's value bits, so that a
      signed R is not credited with its sign bit. */
  function BitwiseOrCorrected(R: IntType, t: nat, u: nat): (r: Checked<int>)
    ensures r.Value? <==> R.Contains(BitOr(t, u))
    ensures r.Value? ==> r.v == BitOr(t, u)
    ensures r.Error? ==> r.kind == PositiveOverflowError
  {
    BitOrWidth(t, u);
    SignificantBitsBound(BitOr(t, u), R.digits);
    var resultSize := Max(SignificantBits(t), SignificantBits(u));
    if resultSize > R.digits then Error(PositiveOverflowError)
    else Value(BitOr(t, u))
  }

  // ---------------------------------------------------------------------
  // native shifts: evaluated in the shiftee's type, not in R

  /** C++ (section 5.8, paragraph 1) defines `t << u` and `t >> u` only for
      a count below the width of t's promoted type. */
  predicate NativeShiftDefined(T: IntType, u: int)
  {
    0 <= u < Promoted(T).Bits()
  }

  /** `t << u` evaluated in an unsigned type W at least as wide as int (so
      not promoted), for a count below W's width, where C++ defines it: the
      bits shifted past W's width are lost. */
  function ShiftInType(W: IntType, t: nat, u: nat): (r: nat)
    requires !W.signed && W.Bits() >= Int32.Bits() && u < W.Bits()
    ensures W.Contains(r)
    ensures W.Contains(t * Pow2(u)) ==> r == t * Pow2(u)
  {
    var x: nat := t * Pow2(u);
    ReduceBelow(x, Pow2(W.Bits()));
    x % Pow2(W.Bits())
  }

  /** Reduction modulo m lands below m and leaves a number below m alone. */
  lemma ReduceBelow(x: nat, m: nat)
    requires m > 0
    ensures x % m < m
    ensures x < m ==> x % m == x
  {
  }

  /** As written: left shift with the shift done in T's width (a signed T
      is first converted to the unsigned type of its width), while the
      width test measures against R. When the test lets through a count at
      or past T's width, the native shift the code then runs is undefined;
      the model records that outcome as UndefinedBehavior. Defined for T at
      least as wide as int; a narrower T is promoted to int before the
      shift. */
  function LeftShiftAsWritten(R: IntType, T: IntType, U: IntType, t: int, u: int): (r: Checked<int>)
    requires T.Contains(t) && U.Contains(u)
    requires T.Bits() >= Int32.Bits()
    ensures u == 0 ==> r == Value(t)
    ensures u < 0 || u > R.digits ==> r == Error(ImplementationDefinedBehavior)
    ensures 0 < u <= R.digits && t == 0 ==> r == Value(0)
    ensures 0 < u <= R.digits && t < 0 ==> r == Error(UndefinedBehavior)
    ensures 0 < u <= R.digits && t > 0 ==> (r.Value? <==> R.Contains(t * Pow2(u)) && u < T.Bits())
    ensures 0 < u <= R.digits && t > 0 && r.Value? ==> r.v == (t * Pow2(u)) % Pow2(T.Bits())
    ensures 0 < u <= R.digits && r.Error? ==> r.kind == UndefinedBehavior
    ensures R.digits <= T.Bits() ==> r == LeftShift(R, T, U, t, u)
  {
    if u == 0 then Value(t)
    else if u < 0 then Error(ImplementationDefinedBehavior)
    else if u > R.digits then Error(ImplementationDefinedBehavior)
    else if t == 0 then Cast(R, T, t)
    else if t < 0 then Error(UndefinedBehavior)
    else
      var W := T.Unsigned();
      ShiftedFits(R, t, u);
      if u > R.digits - SignificantBits(t) then Error(UndefinedBehavior)
      else if !NativeShiftDefined(W, u) then Error(UndefinedBehavior)
      else
        assert R.digits <= T.Bits() ==> ShiftInType(W, t, u) == t * Pow2(u) by {
          if R.digits <= T.Bits() {
            NarrowShiftKeepsBits(R, W, t, u);
          }
        }
        Value(ShiftInType(W, t, u))
  }

  /** When R is no wider than an unsigned W, a shift that passes the width
      test stays below W's width and loses no bits in W. */
  lemma NarrowShiftKeepsBits(R: IntType, W: IntType, t: int, u: nat)
    requires !W.signed && t > 0 && R.digits <= W.Bits()
    requires SignificantBits(t) + u <= R.digits
    ensures u < W.Bits()
    ensures W.Contains(t * Pow2(u))
  {
    assert SignificantBits(t) >= 1;
    ShiftedFits(R, t, u);
    WiderHolds(R, W, t * Pow2(u));
  }

  /** A non-negative value of R is a value of an unsigned W at least as
      wide as R's value bits. */
  lemma WiderHolds(R: IntType, W: IntType, x: int)
    requires !W.signed && R.digits <= W.digits
    requires R.Contains(x) && x >= 0
    ensures W.Contains(x)
  {
    Pow2Monotone(R.digits, W.digits);
  }

  /** As written: t = 2^(digits(T) - 1), shifted so far that the bits pass
      T's width while the shifted value still fits R, passes the width test
      and gives 0. */
  lemma LeftShiftLosesHighBits(R: IntType, T: IntType, U: IntType, u: int)
    requires T.Bits() >= Int32.Bits() && U.Contains(u) && u < T.Bits()
    requires T.Bits() <= T.digits - 1 + u < R.digits
    ensures LeftShiftAsWritten(R, T, U, Pow2(T.digits - 1), u) == Value(0)
  {
    var t := Pow2(T.digits - 1);
    assert Pow2(T.digits) == 2 * t;
    ShiftedTopBit(R, T, u);
    var r := LeftShiftAsWritten(R, T, U, t, u);
    assert 0 < u <= R.digits && t > 0;
    assert r.Value? && r.v == (t * Pow2(u)) % Pow2(T.Bits());
  }

  /** The same input shifted by the corrected LeftShift gives the shifted
      value 2^(digits(T) - 1 + u). */
  lemma LeftShiftKeepsHighBits(R: IntType, T: IntType, U: IntType, u: int)
    requires T.Bits() >= Int32.Bits() && U.Contains(u)
    requires T.Bits() <= T.digits - 1 + u < R.digits
    ensures LeftShift(R, T, U, Pow2(T.digits - 1), u) == Value(Pow2(T.digits - 1 + u))
  {
    var t := Pow2(T.digits - 1);
    assert Pow2(T.digits) == 2 * t;
    ShiftedTopBit(R, T, u);
    var r := LeftShift(R, T, U, t, u);
    assert 0 < u <= R.digits && t >= 0;
    assert r.Value? && r.v == t * Pow2(u);
  }

  /** The arithmetic behind LeftShiftLosesHighBits: 2^(d-1) * 2^u is
      2^(d-1+u), a value of R and a multiple of 2^Bits(T). */
  lemma ShiftedTopBit(R: IntType, T: IntType, u: int)
    requires T.digits >= 1
    requires T.Bits() <= T.digits - 1 + u < R.digits
    ensures Pow2(T.digits - 1) * Pow2(u) == Pow2(T.digits - 1 + u)
    ensures R.Contains(Pow2(T.digits - 1 + u))
    ensures Pow2(T.digits - 1 + u) % Pow2(T.Bits()) == 0
  {
    var e := T.digits - 1 + u;
    Pow2Add(T.digits - 1, u);
    assert Pow2(e + 1) == 2 * Pow2(e);
    Pow2Monotone(e + 1, R.digits);
    var k := e - T.Bits();
    Pow2Add(T.Bits(), k);
    ReduceMultiple(Pow2(T.Bits()), Pow2(k));
  }

  /** As written: 1 shifted by a count from T's width up to below digits(R)
      passes the width test, and the native shift then run is undefined. */
  lemma LeftShiftPastOperandWidth(R: IntType, T: IntType, U: IntType, u: int)
    requires T.Bits() >= Int32.Bits() && U.Contains(u)
    requires T.Bits() <= u < R.digits
    ensures LeftShiftAsWritten(R, T, U, 1, u) == Error(UndefinedBehavior)
  {
    OneShifted(R, T, u);
  }

  /** The corrected LeftShift gives 2^u for the same inputs. */
  lemma LeftShiftOnePastOperandWidth(R: IntType, T: IntType, U: IntType, u: int)
    requires T.Bits() >= Int32.Bits() && U.Contains(u)
    requires T.Bits() <= u < R.digits
    ensures LeftShift(R, T, U, 1, u) == Value(Pow2(u))
  {
    OneShifted(R, T, u);
  }

  /** The arithmetic behind LeftShiftPastOperandWidth: 1 is a value of T,
      it has one significant bit, and 1 * 2^u is a value of R. */
  lemma OneShifted(R: IntType, T: IntType, u: nat)
    requires T.digits >= 1 && u < R.digits
    ensures T.Contains(1) && SignificantBits(1) == 1
    ensures 1 * Pow2(u) == Pow2(u) && R.Contains(Pow2(u))
  {
    assert Pow2(u + 1) == 2 * Pow2(u);
    Pow2Monotone(u + 1, R.digits);
    Pow2Monotone(1, T.digits);
  }

  /** The two inputs of the finding: uint32 2^31 shifted by 1 into uint64,
      and int32 2^30 shifted by 5 into int64, both give 0 as written, where
      the corrected shift gives 2^32 and 2^35; uint32 1 shifted by 40 into
      uint64 runs an undefined shift, where the corrected shift gives 2^40. */
  lemma LeftShiftExamples()
    ensures LeftShiftAsWritten(UInt64, UInt32, Int32, Pow2(31), 1) == Value(0)
    ensures LeftShiftAsWritten(Int64, Int32, Int32, Pow2(30), 5) == Value(0)
    ensures LeftShift(UInt64, UInt32, Int32, Pow2(31), 1) == Value(Pow2(32))
    ensures LeftShift(Int64, Int32, Int32, Pow2(30), 5) == Value(Pow2(35))
    ensures LeftShiftAsWritten(UInt64, UInt32, Int32, 1, 40) == Error(UndefinedBehavior)
    ensures LeftShift(UInt64, UInt32, Int32, 1, 40) == Value(Pow2(40))
  {
    LeftShiftPastOperandWidth(UInt64, UInt32, Int32, 40);
    LeftShiftOnePastOperandWidth(UInt64, UInt32, Int32, 40);
    LeftShiftLosesHighBits(UInt64, UInt32, Int32, 1);
    LeftShiftLosesHighBits(Int64, Int32, Int32, 5);
    LeftShiftKeepsHighBits(UInt64, UInt32, Int32, 1);
    LeftShiftKeepsHighBits(Int64, Int32, Int32, 5);
  }

  /** As written: right shift, which runs the native `t >> u` for every
      count the checks let through, up to digits(R). A count at or past the
      width of t's promoted type makes that shift undefined; the model
      records that outcome as UndefinedBehavior, where RightShift gives the
      integral part of t / 2^u, which is 0. Everywhere else the two agree. */
  function RightShiftAsWritten(R: IntType, T: IntType, U: IntType, t: int, u: int): (r: Checked<int>)
    requires T.Contains(t) && U.Contains(u)
    ensures !(0 < u <= R.digits && t > 0 && !NativeShiftDefined(T, u)) ==> r == RightShift(R, T, U, t, u)
    ensures 0 < u <= R.digits && t > 0 && !NativeShiftDefined(T, u) ==>
              r == Error(UndefinedBehavior) && RightShift(R, T, U, t, u) == Value(0)
  {
    if u == 0 then Value(t)
    else if u < 0 then Error(ImplementationDefinedBehavior)
    else if u > R.digits then Error(ImplementationDefinedBehavior)
    else if t == 0 then Cast(R, T, 0)
    else if T.signed && t < 0 then Error(ImplementationDefinedBehavior)
    else if !NativeShiftDefined(T, u) then
      ShiftPastWidthIsZero(T, t, u);
      Error(UndefinedBehavior)
    else RightShiftDetail(R, T, U, t, u)
  }

  /** A non-negative value of T shifted right by at least the width of T's
      promoted type has integral part 0. */
  lemma ShiftPastWidthIsZero(T: IntType, t: int, u: nat)
    requires T.Contains(t) && t >= 0 && u >= Promoted(T).Bits()
    ensures t / Pow2(u) == 0
  {
    var P := Pow2(u);
    Pow2Monotone(T.digits, u);
    assert t < P;
    FloorDivCompare(1, t, P);
    FloorDivBounds(t, P);
  }

  /** The finding's inputs: right_shift<uint64>(uint32 5, 40) and
      right_shift<uint64>(uint8 5, 40), where the uint8 is promoted to int,
      run undefined shifts; RightShift gives 0. */
  lemma RightShiftExamples()
    ensures RightShiftAsWritten(UInt64, UInt32, Int32, 5, 40) == Error(UndefinedBehavior)
    ensures RightShift(UInt64, UInt32, Int32, 5, 40) == Value(0)
    ensures RightShiftAsWritten(UInt64, UInt8, Int32, 5, 40) == Error(UndefinedBehavior)
    ensures RightShift(UInt64, UInt8, Int32, 5, 40) == Value(0)
  {
    assert Pow2(3) == 8;
    Pow2Monotone(3, 8);
    Pow2Monotone(6, 31);
  }

  // ---------------------------------------------------------------------
  // modulus converts a negative dividend to unsigned

  /** As written: `t % abs(u)`, where `abs` returns the unsigned type of U's
      width. The usual arithmetic conversions then bring both operands to a
      common type; when that type is unsigned, a negative t is converted
      into it, adding 2^Bits. The remainder, a value of the common type, is
      then converted into R. */
  function ModulusAsWritten(R: IntType, T: IntType, U: IntType, t: int, u: int): (r: Checked<int>)
    requires T.Contains(t) && U.Contains(u)
    ensures r.Error? <==> u == 0
    ensures r.Error? ==> r.kind == DomainError
    ensures r.Value? ==> R.Contains(r.v)
    ensures r.Value? && (t >= 0 || CommonType(Promoted(T), Promoted(U.Unsigned())).signed) ==>
              r.v == ConvertInto(R, Modulus(R, T, U, t, u).v)
    ensures (r.Value? && (t >= 0 || CommonType(Promoted(T), Promoted(U.Unsigned())).signed)
              && R.Contains(Modulus(R, T, U, t, u).v)) ==> r == Modulus(R, T, U, t, u)
    ensures (r.Value? && t < 0 && !CommonType(Promoted(T), Promoted(U.Unsigned())).signed
              && R.Contains(Abs(u) - 1)) ==> r.v >= 0
  {
    if u == 0 then Error(DomainError)
    else
      var a := UnsignedAbs(U, u);
      var C := CommonType(Promoted(T), Promoted(U.Unsigned()));
      Pow2Monotone(T.digits, C.Bits());
      var tc := if !C.signed && t < 0 then t + Pow2(C.Bits()) as int else t;
      Value(ConvertInto(R, TruncRem(tc, a)))
  }

  /** As written: a remainder that R does not hold is converted into R.
      int64 -1000 % 3001 is -1000, which becomes 24 in int8; 1000 becomes
      -24. */
  lemma ModulusConvertsIntoResult()
    ensures ModulusAsWritten(Int8, Int64, Int32, -1000, 3001) == Value(24)
    ensures ModulusAsWritten(Int8, Int64, Int32, 1000, 3001) == Value(-24)
  {
    Pow2Monotone(11, 31);
    Pow2Monotone(11, 63);
    assert Pow2(11) == 2048;
    assert Pow2(8) == 256;
  }

  /** As written: int -7 % 2 converts -7 to the unsigned int 4294967289 and
      gives 1, where the remainder with the dividend's sign is -1. */
  lemma ModulusLosesDividendSign()
    ensures ModulusAsWritten(Int32, Int32, Int32, -7, 2) == Value(1)
    ensures Modulus(Int32, Int32, Int32, -7, 2) == Value(-1)
  {
    var C := CommonType(Promoted(Int32), Promoted(Int32.Unsigned()));
    assert C == UInt32;
    Pow2Monotone(3, 32);
    Pow2Add(3, 29);
    assert Pow2(3) == 8;
    assert (Pow2(32) - 7) % 2 == 1;
  }
}
