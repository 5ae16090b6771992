/** Native integer types as `std::numeric_limits` describes them. */
module IntTypes {
  import opened Binary
  import opened CArith

  /** A two's complement integer type, given by its signedness and its number
      of value bits `digits` (numeric_limits::digits: the sign bit is not
      counted). A signed type has range [-2^digits, 2^digits - 1], an unsigned
      one [0, 2^digits - 1]. */
  datatype IntType = IntType(signed: bool, digits: nat) {

    /** The width of the type in bits, sign bit included. */
    function Bits(): nat { if signed then digits + 1 else digits }

    function Min(): int { if signed then -(Pow2(digits) as int) else 0 }

    function Max(): int { Pow2(digits) - 1 }

    /** x is a value of this type. */
    predicate Contains(x: int) { Min() <= x <= Max() }

    /** `std::make_unsigned`: the unsigned type of the same width. */
    function Unsigned(): (U: IntType)
      ensures !U.signed && U.Bits() == Bits()
      ensures forall x :: Contains(x) && x >= 0 ==> U.Contains(x)
    {
      if signed then
        assert Pow2(digits + 1) == 2 * Pow2(digits);
        IntType(false, digits + 1)
      else this
    }
  }

  const Int8 := IntType(true, 7)
  const UInt8 := IntType(false, 8)
  const UInt16 := IntType(false, 16)
  const Int32 := IntType(true, 31)
  const UInt32 := IntType(false, 32)
  const Int64 := IntType(true, 63)
  const UInt64 := IntType(false, 64)

  /** `std::intmax_t` and `std::uintmax_t`, 64 bits wide here. */
  const IntMax := Int64
  const UIntMax := UInt64

  /** Integral promotion: an operand of a type narrower than int takes part
      in arithmetic as an int. */
  function Promoted(T: IntType): (P: IntType)
    ensures P == T || P == Int32
    ensures P.Bits() == Max(T.Bits(), Int32.Bits())
    ensures forall x :: T.Contains(x) ==> P.Contains(x)
  {
    if T.Bits() < Int32.Bits() then
      Pow2Monotone(T.digits, 31);
      Int32
    else T
  }

  /** The usual arithmetic conversions for two promoted operand types, with
      each type's rank given by its width: operands of equal signedness meet
      in the wider type; otherwise the unsigned type wins unless the signed
      one is strictly wider. */
  function CommonType(A: IntType, B: IntType): (C: IntType)
    ensures C == A || C == B
    ensures C.Bits() == Max(A.Bits(), B.Bits())
    ensures !C.signed <==> (!A.signed && A.Bits() >= B.Bits()) || (!B.signed && B.Bits() >= A.Bits())
  {
    if A.signed == B.signed then
      if A.Bits() >= B.Bits() then A else B
    else if !A.signed then
      if A.Bits() >= B.Bits() then A else B
    else
      if B.Bits() >= A.Bits() then B else A
  }

  /** The conversion of an integer into R on a two's complement machine: x
      is reduced modulo 2^Bits(R) into R's range. The result is the one value
      of R congruent to x; in particular a value of R is kept, and a number
      in [0, 2^Bits(R)) that R does not hold loses 2^Bits(R). */
  function ConvertInto(R: IntType, x: int): (r: int)
    ensures R.Contains(r)
    ensures (x - r) % Pow2(R.Bits()) == 0
    ensures R.Contains(x) ==> r == x
    ensures 0 <= x < Pow2(R.Bits()) && !R.Contains(x) ==> r == x - Pow2(R.Bits())
  {
    var P: int := Pow2(R.Bits());
    assert R.signed ==> P == 2 * Pow2(R.digits);
    var m := x % P;
    assert -P <= x < P ==> m == if x < 0 then x + P else x by {
      if -P <= x < P {
        ReduceNear(x, P);
      }
    }
    assert x - m == P * (x / P) && x - (m - P) == P * (x / P + 1);
    ReduceMultiple(P, x / P);
    ReduceMultiple(P, x / P + 1);
    if R.signed && m > R.Max() then m - P else m
  }
}
