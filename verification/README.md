# Checked integer arithmetic, modelled in Dafny

This project models the checked-arithmetic kernel of the safe_numerics
library (`include/checked_integer.hpp`). The kernel is a set of stateless
operations on native C++ integers: cast, add, subtract, multiply, divide,
modulus, the three comparisons, left and right shift, and bitwise
or/xor/and. The arithmetic, shift and bitwise operations return a
`checked_result<R>`, the comparisons a `checked_result<bool>`. Such a
result is either the exact answer (a value of the result type R, or the
truth of the comparison) or an error kind that says why no answer exists. The library's stated aim is that nothing
wraps around and nothing relies on undefined behaviour; "## Findings" lists
the places where the code falls short of that aim.

The model is pure, like the source. Every operation is a Dafny `function`,
and the properties that tie operations together are `lemma`s.

- `Binary` (binary.dfy): powers of two, `SignificantBits` (the bit length of
  a magnitude), and `|`, `^`, `&` on non-negative integers. A bit-by-bit
  reference (`TestBit`, `BitwiseAtBit`) checks the three bitwise operations.
- `CArith` (carith.dfy): C's truncating `/` and `%` (`TruncDiv`, `TruncRem`).
  Dafny's own operators are Euclidean, so these are defined separately. The
  file also holds the comparison lemmas behind the division pre-checks used
  by multiplication.
- `IntTypes` (inttypes.dfy): an integer type is `IntType(signed, digits)`.
  Here `digits` is `numeric_limits<R>::digits`, and the width is
  `Bits() = digits (+1 if signed)`. The file also defines the range
  `Min()..Max()` and the usual int8 … uint64 types. `std::intmax_t` and
  `std::uintmax_t` are taken to be 64 bits wide. `Promoted` and `CommonType`
  give integral promotion and the usual arithmetic conversions, with a
  type's rank taken to be its width. `ConvertInto` is the conversion of an
  integer into R on the two's complement machine the library presumes
  (`include/checked_integer.hpp:39`): reduction modulo 2^Bits(R).
- `CheckedResult` (checkedresult.dfy): the error kinds, the result
  `Checked<V> = Value(v) | Error(kind)`, and `Exact(R, x)`. `Exact` is the
  reference outcome for a true result x: the value itself when R holds it,
  otherwise an overflow in the direction x lies.
- `CheckedInteger` (checkedinteger.dfy): the operations. Multiply keeps
  its four tag-dispatched implementations (unsigned and signed, fast and
  slow) as separate functions, with the size selector between them. Every
  other overload set becomes one function: the four `cast_impl` overloads
  are one `Cast`, and the signed/unsigned overloads of add, subtract,
  divide and the two shift details become a branch on `R.signed` or
  `T.signed`.
- `CheckedProperties` (properties.dfy): lemmas that relate the operations:
  add and subtract are inverses, the division identity, fast and slow
  multiplication agree, comparison trichotomy, the shift boundary, and
  concrete cases.
- `Findings` (findings.dfy): five discrepancies; see "## Findings".

Operand values are mathematical integers. A precondition `T.Contains(t)`
says that t is a value of its C++ type T.

A left shift of zero succeeds: once the shift amount has passed its checks,
a zero `t` returns `Value(0)` (`include/checked_integer.hpp:673-674`), even
for a shift by `digits(R)`. So `CheckedProperties.LeftShiftByDigits`, which
states that such a shift is undefined behaviour, requires `t != 0`.

## Model

| member | source | states |
|---|---|---|
| CheckedInteger.Cast | include/checked_integer.hpp:51-159 | Succeeds exactly when t is in R's range, and then returns t. A negative t into an unsigned R is a domain error. Above R's maximum is a positive overflow. Below a signed R's minimum is a negative overflow. |
| CheckedInteger.AddImpl | include/checked_integer.hpp:186-228 | For two values of R, the result is the reference outcome of t + u: the value when it fits, otherwise an overflow in the direction of the true sum. |
| CheckedInteger.AddGuardsInRange | include/checked_integer.hpp:195-219 | The guard expressions `max - u` (for unsigned R, or u > 0) and `min - u` (for u < 0) are themselves values of R, so the guards cannot overflow. |
| CheckedInteger.Add | include/checked_integer.hpp:230-239 | t's failing cast is returned first, then u's. Once both casts succeed, the result is the reference outcome of t + u. Succeeds iff both operands and t + u are in R. |
| CheckedInteger.SubtractImpl | include/checked_integer.hpp:243-287 | Succeeds iff t - u is in R, with value t - u. Unsigned failures are range errors. For signed R, a result below the minimum is labelled a positive overflow and one above the maximum a negative overflow. |
| CheckedInteger.SubtractGuardsInRange | include/checked_integer.hpp:271-277 | The guards `min + u` (u > 0) and `max + u` (u < 0) are values of R. |
| CheckedInteger.Subtract | include/checked_integer.hpp:289-297 | Returns the first failing operand cast. Otherwise succeeds iff t - u is in R, with value t - u. t < u in unsigned R is a range error. Signed overflows get the swapped labels described above. |
| CheckedInteger.SlowMultiplySelected | include/checked_integer.hpp:431-438 | The selector picks the slow path when R is wider than half of `std::uintmax_t`. When it does not, twice R's value bits fit the value bits of `std::intmax_t` (signed R) or `std::uintmax_t` (unsigned R). When it does, they do not. |
| CheckedInteger.MultiplyUnsignedFast | include/checked_integer.hpp:305-326 | The unsigned widened-product path gives the reference outcome of t * u. |
| CheckedInteger.MultiplyUnsignedSlow | include/checked_integer.hpp:327-344 | The unsigned pre-check `u > 0 && t > max / u` gives the reference outcome of t * u. The divisor is never zero. |
| CheckedInteger.MultiplySignedFast | include/checked_integer.hpp:347-379 | The signed widened-product path gives the reference outcome of t * u. |
| CheckedInteger.MultiplySignedSlow | include/checked_integer.hpp:380-421 | The four sign-quadrant pre-checks give the reference outcome of t * u. No check ever divides by zero. |
| CheckedInteger.Multiply | include/checked_integer.hpp:424-440 | Returns the first failing operand cast. Otherwise, whichever path the size selector picks, the result is the reference outcome of t * u. |
| CheckedInteger.QuotientInRange | include/checked_integer.hpp:456-470 | The truncated quotient of two values of R is in R, except in exactly one case: signed MIN / -1. |
| CheckedInteger.DivideImpl | include/checked_integer.hpp:445-471 | Returns the truncated quotient when it fits R. The only failure is a range error for signed MIN / -1. |
| CheckedInteger.Divide | include/checked_integer.hpp:473-490 | u == 0 is a domain error, checked first. Any operand cast failure also becomes a domain error. Otherwise the result is the truncated quotient, or a range error exactly for signed MIN / -1. |
| CheckedInteger.UnsignedAbs | include/checked_integer.hpp:495-504 | Returns the magnitude of x as an unsigned value of U's width. This holds for the signed minimum too, which is returned as is and reinterpreted as unsigned. |
| CheckedInteger.Modulus | include/checked_integer.hpp:506-521 | The intended remainder (the as-written conversion of a negative t is in "## Findings"). Fails, with a domain error, exactly when u == 0. Otherwise it returns C's `t % u`. The result has the dividend's sign, is smaller than u in magnitude and no larger than t in magnitude, and t minus it is the truncated quotient times u. |
| CheckedInteger.LessThan | include/checked_integer.hpp:525-536 | Passes on t's cast error, then u's. Otherwise returns t < u. |
| CheckedInteger.GreaterThan | include/checked_integer.hpp:538-549 | Passes on t's cast error, then u's. Otherwise returns t > u. |
| CheckedInteger.Equal | include/checked_integer.hpp:551-562 | Passes on t's cast error, then u's. Otherwise returns t == u. |
| CheckedInteger.ShiftedFits | include/checked_integer.hpp:608-620 | For t > 0, t * 2^u is in R exactly when significant_bits(t) + u <= digits(R). So the undefined-behaviour test is exact. |
| CheckedInteger.LeftShiftDetail | include/checked_integer.hpp:592-647 | The intended shift (the as-written loss of bits past T's width is in "## Findings"). A negative t is undefined behaviour. A positive t succeeds exactly when t * 2^u fits R, and the value is then t * 2^u. Every failure is undefined behaviour. |
| CheckedInteger.LeftShift | include/checked_integer.hpp:649-676 | The intended shift, as for LeftShiftDetail. u == 0 returns t unchecked. u < 0 or u > digits(R) is implementation defined. Then a zero t gives 0. Otherwise t < 0 is undefined behaviour, and t >= 0 succeeds iff t * 2^u is in R, with value t * 2^u. |
| CheckedInteger.RightShiftDetail | include/checked_integer.hpp:680-714 | A negative t is implementation defined. Otherwise t is divided by 2^u, rounding down, and cast into R. Success iff that quotient is in R, and the value v satisfies v * 2^u <= t < (v+1) * 2^u. |
| CheckedInteger.RightShift | include/checked_integer.hpp:716-743 | Same shift-amount guards, in the same order, as LeftShift. A negative t is implementation defined. A non-negative t gives the rounded-down quotient t / 2^u cast into R. |
| CheckedInteger.BitwiseOr | include/checked_integer.hpp:752-764 | Succeeds exactly when BitOr(t, u) needs at most R's width in bits; failures are positive overflows. A success returns BitOr(t, u) converted into R: the value itself when R holds it, otherwise BitOr(t, u) - 2^Bits(R). For unsigned R, success is exactly "BitOr(t, u) is in R". |
| CheckedInteger.BitwiseXor | include/checked_integer.hpp:766-778 | Succeeds iff neither operand is wider than R; the result t ^ u then has at most R's width in bits. A success returns t ^ u converted into R: the value itself when R holds it, otherwise t ^ u - 2^Bits(R). |
| CheckedInteger.BitwiseAnd | include/checked_integer.hpp:780-792 | Succeeds iff the narrower operand is no wider than R; the result t & u then has at most R's width in bits. A success returns t & u converted into R: the value itself when R holds it, otherwise t & u - 2^Bits(R). |
| CheckedProperties.CastWidening | include/checked_integer.hpp:51-159 | A cast into a type whose range contains T's succeeds with the same value, and the cast back also succeeds with that value. |
| CheckedProperties.AddSubtractInverse | include/checked_integer.hpp:186-297 | Subtracting u from a successful t + u gives back t. Adding u to a successful t - u gives back t. |
| CheckedProperties.FastProductFits | include/checked_integer.hpp:313-361 | For an R at most half as wide as intmax, the widened product of two values of R fits `std::intmax_t` (signed) or `std::uintmax_t` (unsigned). So the fast paths never overflow. |
| CheckedProperties.MultiplyPathsAgree | include/checked_integer.hpp:424-440 | Where the fast path is selected, the slow path gives the identical outcome. The size selector cannot change a result. |
| CheckedProperties.DivisionIdentity | include/checked_integer.hpp:445-521 | When t / u succeeds, the modulus succeeds. The checked multiply q * u succeeds, and the checked add of the remainder returns t. |
| CheckedProperties.MinimumByMinusOne | include/checked_integer.hpp:456-521 | For signed R, MIN % -1 is 0 with no trap, and MIN / -1 is a range error. |
| CheckedProperties.ComparisonTrichotomy | include/checked_integer.hpp:525-562 | When both casts succeed, exactly one of less_than, greater_than and equal is true. |
| CheckedProperties.LessThanIsSwappedGreaterThan | include/checked_integer.hpp:525-549 | less_than(t, u) equals greater_than(u, t), errors included, whenever at least one operand casts. |
| CheckedProperties.LeftShiftByDigits | include/checked_integer.hpp:597-676 | Shifting a non-zero t left by digits(R) always gives undefined behaviour. |
| CheckedProperties.ArithmeticExamples | include/checked_integer.hpp:51-490 | add<int8>(120, 10) is a positive overflow. subtract<uint8>(3, 5) is a range error. divide<int32>(INT32_MIN, -1) is a range error. cast<uint16>(int32 -1) is a domain error. |
| CheckedProperties.BitwiseOrExamples | include/checked_integer.hpp:752-764 | bitwise_or<uint8>(200, 200) = 200 and bitwise_or<uint8>(255, 1) = 255. A 9-bit operand is a positive overflow. |
| CheckedProperties.BitwiseAndIsConservative | include/checked_integer.hpp:780-792 | 256 & 767 is 0, yet uint8 refuses it, because the test looks only at the operands' widths. |
| Findings.SubtractSwapsOverflowKinds | include/checked_integer.hpp:264-285 | In int8, -128 - 1 (below the minimum) is reported as a positive overflow, and 127 - (-1) (above the maximum) as a negative overflow. |
| Findings.SubtractCorrected | include/checked_integer.hpp:264-285 | With the labels exchanged, signed subtraction gives the reference outcome of t - u. Unsigned subtraction and cast propagation are unchanged. |
| Findings.BitwiseOrSignedOutOfRange | include/checked_integer.hpp:752-764 | bitwise_or<int8>(128, 0) is accepted although 128 is not an int8, and its conversion into int8 gives Value(-128). |
| Findings.BitwiseXorAndSignedOutOfRange | include/checked_integer.hpp:766-792 | bitwise_xor<int8>(255, 0) and bitwise_and<int8>(255, 255) are accepted and give Value(-1). |
| Findings.BitwiseOrCorrected | include/checked_integer.hpp:752-764 | Comparing against R's value bits makes or succeed exactly when BitOr(t, u) is in R, for signed and unsigned R alike. |
| Findings.ShiftInType | include/checked_integer.hpp:620 | `t << u` in an unsigned type W at least as wide as int, for a count below W's width: the result is a value of W, and it is t * 2^u whenever W holds t * 2^u. |
| Findings.LeftShiftAsWritten | include/checked_integer.hpp:608-676 | The shift amount and sign checks are the same as in LeftShift. A positive t succeeds iff t * 2^u is in R and u is below T's width; a count at or past T's width runs an undefined native shift, recorded as undefined behaviour. A success returns t * 2^u reduced modulo 2^Bits(T). When R is no wider than T, the result equals LeftShift's. |
| Findings.NarrowShiftKeepsBits | include/checked_integer.hpp:608-620 | When R is no wider than T, a shift that passes the :611 test stays below T's width and loses no bits. |
| Findings.LeftShiftLosesHighBits | include/checked_integer.hpp:608-638 | For every T at least as wide as int, t = 2^(digits(T)-1) shifted past T's top bit by a count below T's width, with the result within R, passes the test and gives Value(0). |
| Findings.LeftShiftPastOperandWidth | include/checked_integer.hpp:608-620 | For every T at least as wide as int, 1 shifted by a count from T's width up to below digits(R) passes the :611 test, and the shift then run is undefined. |
| Findings.LeftShiftOnePastOperandWidth | include/checked_integer.hpp:608-676 | The same inputs give LeftShift's Value(2^u). |
| Findings.LeftShiftKeepsHighBits | include/checked_integer.hpp:608-638 | The same inputs give LeftShift's Value(2^(digits(T)-1+u)). |
| Findings.LeftShiftExamples | include/checked_integer.hpp:608-638 | left_shift<uint64>(uint32 2^31, 1) and left_shift<int64>(int32 2^30, 5) give 0 as written, where the shifted values are 2^32 and 2^35. left_shift<uint64>(uint32 1, 40) runs an undefined shift, where the shifted value is 2^40. |
| Findings.RightShiftAsWritten | include/checked_integer.hpp:680-743 | It agrees with RightShift everywhere except where a positive t passes the checks with a count at or past the width of t's promoted type. There the native `t >> u` is undefined, recorded as undefined behaviour, while RightShift gives Value(0). |
| Findings.ShiftPastWidthIsZero | include/checked_integer.hpp:692-694 | A non-negative value of T divided by 2^u, for u at least the width of T's promoted type, has integral part 0. |
| Findings.RightShiftExamples | include/checked_integer.hpp:680-743 | right_shift<uint64>(uint32 5, 40) and right_shift<uint64>(uint8 5, 40) run undefined shifts as written, where RightShift gives Value(0). |
| IntTypes.ConvertInto | include/checked_integer.hpp:39 | The result is the value of R congruent to x modulo 2^Bits(R), which fixes it uniquely. A value of R is kept, and a number in [0, 2^Bits(R)) that R does not hold becomes that number minus 2^Bits(R). |
| IntTypes.Promoted | include/checked_integer.hpp:520 | The promoted type is either the type itself or int, and its width is the greater of the two widths: a type narrower than int becomes int, and any other stays itself. It holds every value of the original. |
| IntTypes.CommonType | include/checked_integer.hpp:520 | The usual arithmetic conversions. The common type is one of the two operand types and has the greater width. It is unsigned exactly when an unsigned operand is at least as wide as the other. |
| Findings.ModulusAsWritten | include/checked_integer.hpp:495-521 | `t % abs(u)`, with `abs` returning an unsigned type, converted into R. Fails exactly when u == 0, and a success is a value of R. When t >= 0 or the common type is signed, it is Modulus's remainder converted into R, and equals Modulus when R holds that remainder. When a negative t meets an unsigned common type and R holds every remainder below abs(u), the result is non-negative. |
| Findings.ModulusConvertsIntoResult | include/checked_integer.hpp:506-521 | modulus<int8>(int64 -1000, int32 3001) gives Value(24) as written, and modulus<int8>(int64 1000, int32 3001) gives Value(-24): the remainder is converted into int8. |
| Findings.ModulusLosesDividendSign | include/checked_integer.hpp:495-521 | modulus<int>(-7, 2) gives Value(1) as written. Modulus gives Value(-1), which has the dividend's sign. |

## Left out

- The integral-to-floating `cast` (`include/checked_integer.hpp:162-173`) is not modelled. It is a plain floating-point conversion with no checks.
- The `leading_zeros` block (`include/checked_integer.hpp:569-590`) is compiled out and is not modelled.
- The diagnostic message that accompanies each error is debug text and is not modelled.
- `checked_result.hpp`, `safe_compare.hpp`, `utility.hpp` and `exception.hpp` are not part of this model. The result type, exact comparison across signedness, `significant_bits` (bit length of the magnitude) and `bits_type<R>` (the width of R, sign bit included) get their own definitions here.
- `std::intmax_t` and `std::uintmax_t` are assumed to be 64 bits wide, so the multiply selector picks the slow path for types wider than 32 bits.
- LeftShift: the unsigned subtraction `digits - significant_bits(t)` in the width test (`include/checked_integer.hpp:611`) is modelled mathematically, so a t with more significant bits than R has value bits is refused as undefined behaviour. As written, with `significant_bits` returning an unsigned type (it is defined in utility.hpp), the subtraction wraps to a large unsigned number and the test passes.
- LeftShiftAsWritten: it takes the :611 test mathematically too, so it does not capture that wrap. For example, as written left_shift<uint8>(uint32 256, 1) passes the test and gives uint8(512) = 0, while LeftShiftAsWritten gives `Error(UndefinedBehavior)`.
- LeftShift: a shift by 0 returns `Value(t)` with t's mathematical value. The implicit conversion of t into R at `include/checked_integer.hpp:658`, which may truncate, is not modelled.
- LeftShift: the result is the intended value t * 2^u. The as-written shift in T's width, which loses bits when R is wider than T, is modelled by `Findings.LeftShiftAsWritten` (see "## Findings").
- LeftShiftDetail: the result is the intended value t * 2^u, for the same reason as LeftShift.
- LeftShiftAsWritten: it is defined only for a shiftee type at least as wide as int. A narrower T is promoted to int before the shift, and the rules for a shift that overflows int are not modelled.
- LeftShiftAsWritten: a native shift that C++ leaves undefined has no value to model. The model records it as `Error(UndefinedBehavior)`, although the library returns whatever the machine produces.
- RightShiftAsWritten: a native shift that C++ leaves undefined is recorded as `Error(UndefinedBehavior)`, as for LeftShiftAsWritten.
- RightShift: the result is the intended integral part of t / 2^u. The as-written native shift, which is undefined for a count at or past the width of t's promoted type, is modelled by `Findings.RightShiftAsWritten` (see "## Findings").
- RightShiftDetail: the result is the intended integral part of t / 2^u, for the same reason as RightShift.
- RightShift: a shift by 0 returns `Value(t)` with t's mathematical value. The implicit conversion of t into R at `include/checked_integer.hpp:725`, which may truncate, is not modelled.
- Modulus: the result is the intended remainder, with the dividend's sign. As written, `abs` returns an unsigned type. When the usual arithmetic conversions make the common type of t and `abs(u)` unsigned, a negative t is converted to unsigned first. This happens when the unsigned type of U's width is at least as wide as int and as wide as T. The result then has neither C's `t % u` value nor the dividend's sign: modulus<int>(-7, 2) gives 1 (see "## Findings").
- Modulus: the remainder is not cast into R. Its truncation into a narrower R is not captured. Findings.ModulusAsWritten does convert its remainder into R.
- BitwiseOr: operands are restricted to non-negative values, because the bit length of a negative operand, and the bitwise result on it, depend on `utility.hpp` and on two's complement representation, which are not part of this model.
- BitwiseXor: operands are restricted to non-negative values, for the same reason.
- BitwiseAnd: operands are restricted to non-negative values, for the same reason.
- The two fast multiply functions, MultiplyUnsignedFast and MultiplySignedFast, take the selector's outcome as a precondition, which is how the compile-time dispatch reaches them. The slow ones accept any R. FastProductFits shows that the mathematical product the fast paths compare equals the native widened product.

## Findings

| source | as written | input that shows it | evidently intended | confidence | as-written member | corrected member |
|---|---|---|---|---|---|---|
| include/checked_integer.hpp:271-281 | Signed subtract reports a result below R's minimum as `positive_overflow_error`, and one above R's maximum as `negative_overflow_error`. | subtract<int8>(-128, 1), whose true result is -129 | The overflow kind follows the direction of the true result, as in add and multiply and as the error taxonomy defines it. | high; not executed | Findings.SubtractSwapsOverflowKinds | Findings.SubtractCorrected |
| include/checked_integer.hpp:608-638 | `return t << u;` shifts in T's type (or the unsigned type of T's width), while the width test measures against R. When R is wider than T, bits past T's width are lost. A count at or past T's width passes the test, and the native shift is then undefined. | left_shift<uint64>(uint32 2^31, 1) gives 0; left_shift<int64>(int32 2^30, 5) gives 0; left_shift<uint64>(uint32 1, 40) runs `1u << 40` | The result is t * 2^u as a value of R. The width test at `:611` measures the shift against R's `digits`, so every shift it admits is meant to succeed with t * 2^u. | high; not executed | Findings.LeftShiftExamples | CheckedInteger.LeftShift |
| include/checked_integer.hpp:716-743 | The checks bound the count by R's `digits` only, and `:694`/`:712` then run `t >> u`. This is undefined when the count is at least the width of t's promoted type, the case INT34-C, cited at `:682`, exists to prevent. | right_shift<uint64>(uint32 5, 40) runs `5u >> 40` | The integral part of t / 2^u (here 0), as the comments at `:692` and `:711` state. | high; not executed | Findings.RightShiftExamples | CheckedInteger.RightShift |
| include/checked_integer.hpp:495-521 | `abs` returns the unsigned type of U's width. In `t % abs(u)`, when the usual arithmetic conversions give an unsigned common type, a negative t is converted to unsigned. | modulus<int>(-7, 2) computes 4294967289u % 2u, which is 1 | The remainder has the dividend's sign (-1), as the comment at `:513` states. | high; not executed | Findings.ModulusLosesDividendSign | CheckedInteger.Modulus |
| include/checked_integer.hpp:752-764 | The bitwise-or width test compares significant bits with `bits_type<R>`, which includes a signed R's sign bit. An operand that needs all of R's bits is accepted, although its value lies above R's maximum, and the conversion of the result into R at `:763` turns it negative. | bitwise_or<int8>(128, 0) is accepted, and 128 converted into int8 gives -128 | A result that R does not hold is refused as a positive overflow, not returned with its sign flipped. So the test should compare with R's value bits (`digits`). | medium (depends on `bits_type` in utility.hpp, which is not part of this model); not executed | Findings.BitwiseOrSignedOutOfRange | Findings.BitwiseOrCorrected |

For subtract and bitwise or, the library model keeps the behaviour as written (`CheckedInteger.Subtract`, `CheckedInteger.BitwiseOr`), and the corrected definitions stand beside it with their intended properties proved. For left shift, right shift and modulus, the library model is the corrected definition (`CheckedInteger.LeftShift`, `CheckedInteger.RightShift`, `CheckedInteger.Modulus`), and the as-written versions stand beside it in `Findings`. The bitwise xor and and tests share or's comparison with `bits_type<R>`. `Findings.BitwiseXorAndSignedOutOfRange` exhibits it for them, and only or has a corrected definition.
