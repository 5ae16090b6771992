/** Powers of two, bit lengths and bitwise operations on non-negative integers.
    These are the mathematical meanings of `significant_bits`, `<<`, `>>`,
    `|`, `^` and `&` that the checked operations rely on. */
module Binary {

  /** 2 raised to the power n. */
  function Pow2(n: nat): (r: nat)
    ensures r >= 1
  {
    if n == 0 then 1 else 2 * Pow2(n - 1)
  }

  lemma {:induction false} Pow2Add(a: nat, b: nat)
    ensures Pow2(a + b) == Pow2(a) * Pow2(b)
  {
    if a > 0 {
      Pow2Add(a - 1, b);
      assert Pow2(a + b) == 2 * Pow2(a - 1 + b);
    }
  }

  lemma {:induction false} Pow2Monotone(a: nat, b: nat)
    requires a <= b
    ensures Pow2(a) <= Pow2(b)
  {
    if a < b {
      Pow2Monotone(a, b - 1);
    }
  }

  function Max(a: nat, b: nat): nat { if a < b then b else a }

  function Min(a: nat, b: nat): nat { if a < b then a else b }

  /** The number of bits needed to write n in binary: 0 for 0, otherwise
      one more than the position of its highest set bit. */
  function SignificantBits(n: nat): nat
  {
    if n == 0 then 0 else 1 + SignificantBits(n / 2)
  }

  /** n fits in k bits exactly when its bit length is at most k. */
  lemma {:induction false} SignificantBitsBound(n: nat, k: nat)
    ensures SignificantBits(n) <= k <==> n < Pow2(k)
  {
    if n > 0 && k > 0 {
      SignificantBitsBound(n / 2, k - 1);
    }
  }

  /** Multiplying a positive number by 2^u adds exactly u to its bit length. */
  lemma {:induction false} SignificantBitsShift(t: nat, u: nat)
    requires t > 0
    ensures SignificantBits(t * Pow2(u)) == SignificantBits(t) + u
  {
    if u > 0 {
      SignificantBitsShift(t, u - 1);
      var p := Pow2(u - 1);
      DoubledFactor(t, p);
      SignificantBitsDouble(t * p);
    }
  }

  lemma DoubledFactor(t: nat, p: nat)
    requires t > 0 && p > 0
    ensures t * (2 * p) == 2 * (t * p)
    ensures t * p > 0
  {
  }

  /** Doubling a positive number adds one bit. */
  lemma SignificantBitsDouble(m: nat)
    requires m > 0
    ensures SignificantBits(2 * m) == 1 + SignificantBits(m)
  {
    assert (2 * m) / 2 == m;
  }

  /** Bit i of n (bit 0 is the least significant). */
  function TestBit(n: nat, i: nat): bool
  {
    if i == 0 then n % 2 == 1 else TestBit(n / 2, i - 1)
  }

  /** `a | b` on non-negative integers. */
  function BitOr(a: nat, b: nat): nat
    decreases a + b
  {
    if a == 0 && b == 0 then 0
    else 2 * BitOr(a / 2, b / 2) + (if a % 2 == 1 || b % 2 == 1 then 1 else 0)
  }

  /** `a ^ b` on non-negative integers. */
  function BitXor(a: nat, b: nat): nat
    decreases a + b
  {
    if a == 0 && b == 0 then 0
    else 2 * BitXor(a / 2, b / 2) + (if (a % 2 == 1) != (b % 2 == 1) then 1 else 0)
  }

  /** `a & b` on non-negative integers. */
  function BitAnd(a: nat, b: nat): nat
    decreases a + b
  {
    if a == 0 && b == 0 then 0
    else 2 * BitAnd(a / 2, b / 2) + (if a % 2 == 1 && b % 2 == 1 then 1 else 0)
  }

  /** BitOr, BitXor and BitAnd act bit by bit. */
  lemma {:induction false} BitwiseAtBit(a: nat, b: nat, i: nat)
    ensures TestBit(BitOr(a, b), i) == (TestBit(a, i) || TestBit(b, i))
    ensures TestBit(BitXor(a, b), i) == (TestBit(a, i) != TestBit(b, i))
    ensures TestBit(BitAnd(a, b), i) == (TestBit(a, i) && TestBit(b, i))
    decreases a + b, i
  {
    if a == 0 && b == 0 {
      ZeroHasNoBits(i);
    } else if i > 0 {
      BitwiseAtBit(a / 2, b / 2, i - 1);
    }
  }

  lemma {:induction false} ZeroHasNoBits(i: nat)
    ensures !TestBit(0, i)
  {
    if i > 0 {
      ZeroHasNoBits(i - 1);
    }
  }

  /** `a | a` is a. */
  lemma {:induction false} BitOrIdempotent(a: nat)
    ensures BitOr(a, a) == a
  {
    if a != 0 {
      BitOrIdempotent(a / 2);
    }
  }

  /** `a | 0` is a. */
  lemma {:induction false} BitOrZero(a: nat)
    ensures BitOr(a, 0) == a
  {
    if a != 0 {
      BitOrZero(a / 2);
    }
  }

  /** `a ^ 0` is a. */
  lemma {:induction false} BitXorZero(a: nat)
    ensures BitXor(a, 0) == a
  {
    if a != 0 {
      BitXorZero(a / 2);
    }
  }

  /** `a & a` is a. */
  lemma {:induction false} BitAndIdempotent(a: nat)
    ensures BitAnd(a, a) == a
  {
    if a != 0 {
      BitAndIdempotent(a / 2);
    }
  }

  /** The bit length of `2 * x + bit` for a single bit. */
  lemma AppendBit(x: nat, bit: nat)
    requires bit <= 1
    ensures SignificantBits(2 * x + bit) == if x == 0 && bit == 0 then 0 else 1 + SignificantBits(x)
  {
    assert (2 * x + bit) / 2 == x;
  }

  /** `a | b` needs exactly as many bits as the longer operand. */
  lemma {:induction false} BitOrWidth(a: nat, b: nat)
    ensures SignificantBits(BitOr(a, b)) == Max(SignificantBits(a), SignificantBits(b))
    decreases a + b
  {
    if a != 0 || b != 0 {
      var x := BitOr(a / 2, b / 2);
      BitOrWidth(a / 2, b / 2);
      AppendBit(x, if a % 2 == 1 || b % 2 == 1 then 1 else 0);
    }
  }

  /** `a ^ b` needs at most as many bits as the longer operand. */
  lemma {:induction false} BitXorWidth(a: nat, b: nat)
    ensures SignificantBits(BitXor(a, b)) <= Max(SignificantBits(a), SignificantBits(b))
    decreases a + b
  {
    if a != 0 || b != 0 {
      var x := BitXor(a / 2, b / 2);
      BitXorWidth(a / 2, b / 2);
      AppendBit(x, if (a % 2 == 1) != (b % 2 == 1) then 1 else 0);
    }
  }

  /** `a & b` needs at most as many bits as the shorter operand. */
  lemma {:induction false} BitAndWidth(a: nat, b: nat)
    ensures SignificantBits(BitAnd(a, b)) <= Min(SignificantBits(a), SignificantBits(b))
    decreases a + b
  {
    if a != 0 || b != 0 {
      var x := BitAnd(a / 2, b / 2);
      BitAndWidth(a / 2, b / 2);
      AppendBit(x, if a % 2 == 1 && b % 2 == 1 then 1 else 0);
    }
  }
}
