/** Integer division and remainder as C and C++ define them: the quotient
    is truncated toward zero and the remainder takes the dividend's sign
    (C++11 section 5.6, paragraph 4). Dafny's own `/` and `%` are Euclidean,
    so they are used here only on non-negative operands. */
module CArith {

  function Abs(x: int): nat { if x < 0 then -x else x }

  /** `a / b` in C: the algebraic quotient with its fraction discarded. */
  function TruncDiv(a: int, b: int): int
    requires b != 0
  {
    if (a < 0) == (b < 0) then Abs(a) / Abs(b) else -(Abs(a) / Abs(b))
  }

  /** `a % b` in C: the remainder, with the sign of the dividend. */
  function TruncRem(a: int, b: int): int
    requires b != 0
  {
    if a < 0 then -(Abs(a) % Abs(b)) else Abs(a) % Abs(b)
  }

  /** x <= y implies x * c <= y * c for c >= 0. */
  lemma MulMonotone(x: int, y: int, c: int)
    requires x <= y && c >= 0
    ensures x * c <= y * c
  {
    assert y * c - x * c == (y - x) * c;
  }

  /** TruncDiv and TruncRem are the quotient and remainder of C's division:
      they rebuild the dividend, the remainder is smaller than the divisor in
      magnitude and has the dividend's sign, and the quotient times the
      divisor never exceeds the dividend in magnitude. */
  lemma TruncDivision(a: int, b: int)
    requires b != 0
    ensures TruncDiv(a, b) * b + TruncRem(a, b) == a
    ensures Abs(TruncRem(a, b)) < Abs(b)
    ensures Abs(TruncRem(a, b)) <= Abs(a)
    ensures TruncRem(a, b) == 0 || (TruncRem(a, b) < 0 <==> a < 0)
    ensures Abs(TruncDiv(a, b)) * Abs(b) <= Abs(a)
    ensures TruncDiv(a, b) == 0 || (TruncDiv(a, b) < 0 <==> (a < 0) != (b < 0))
  {
    var A, B := Abs(a), Abs(b);
    var q, r := A / B, A % B;
    MagnitudeDivision(A, B);
    assert Abs(TruncDiv(a, b)) == q && Abs(TruncRem(a, b)) == r;
    SignedProduct(TruncDiv(a, b), b, q, B);
  }

  /** Euclidean division of magnitudes. */
  lemma MagnitudeDivision(A: nat, B: nat)
    requires B > 0
    ensures A == (A / B) * B + A % B && 0 <= A % B < B
    ensures A % B <= A && (A / B) * B <= A && A / B >= 0
  {
    MulMonotone(0, A / B, B);
  }

  /** The product of two signed numbers from their magnitudes. */
  lemma SignedProduct(x: int, y: int, X: nat, Y: nat)
    requires Abs(x) == X && Abs(y) == Y
    ensures x * y == if (x < 0) == (y < 0) then X * Y else -(X * Y)
  {
    if x < 0 && y >= 0 {
      assert x * y == -(X * Y);
    } else if x >= 0 && y < 0 {
      assert x * y == -(X * Y);
    } else if x < 0 && y < 0 {
      assert x * y == X * Y;
    }
  }

  /** For a positive divisor, comparing with the floor quotient is comparing
      the product with the dividend. */
  lemma FloorDivCompare(x: int, a: int, b: int)
    requires b > 0
    ensures x > a / b <==> x * b > a
  {
    var q := a / b;
    assert a == q * b + a % b && 0 <= a % b < b;
    if x > q {
      MulMonotone(q + 1, x, b);
      assert (q + 1) * b == q * b + b;
    } else {
      MulMonotone(x, q, b);
    }
  }

  /** The guard `t > max / u` of the multiplication pre-check, for a
      non-negative bound and a positive divisor. */
  lemma TruncDivAbove(x: int, a: int, b: int)
    requires a >= 0 && b > 0
    ensures x > TruncDiv(a, b) <==> x * b > a
  {
    FloorDivCompare(x, a, b);
  }

  /** The guard `u < min / t` of the multiplication pre-check, for a
      negative bound and a positive divisor. */
  lemma TruncDivBelow(x: int, a: int, b: int)
    requires a < 0 && b > 0
    ensures x < TruncDiv(a, b) <==> x * b < a
  {
    FloorDivCompare(-x, -a, b);
    assert (-x) * b == -(x * b);
  }

  /** The guard `u < max / t` of the multiplication pre-check, for a
      non-negative bound and a negative divisor. */
  lemma TruncDivBelowNegativeDivisor(x: int, a: int, b: int)
    requires a >= 0
    ensures b < 0 ==> (x < TruncDiv(a, b) <==> x * b > a)
  {
    if b < 0 {
      FloorDivCompare(-x, a, -b);
      assert (-x) * (-b) == x * b;
    }
  }

  /** For a positive divisor the floor quotient q satisfies q*b <= a < (q+1)*b. */
  lemma FloorDivBounds(a: int, b: int)
    requires b > 0
    ensures (a / b) * b <= a < (a / b + 1) * b
    ensures a >= 0 ==> 0 <= a / b <= a
  {
    if a >= 0 {
      MagnitudeDivision(a, b);
      MulMonotone(1, b, a / b);
    }
    assert a == (a / b) * b + a % b;
    assert (a / b + 1) * b == (a / b) * b + b;
  }

  /** Dafny's Euclidean `%` on a number within one modulus of zero: a
      non-negative x is left alone and a negative one has m added. */
  lemma ReduceNear(x: int, m: int)
    requires m > 0 && -m <= x < m
    ensures x % m == if x < 0 then x + m else x
  {
    var q, r := x / m, x % m;
    assert x == m * q + r && 0 <= r < m;
    if q >= 1 {
      MulMonotone(1, q, m);
    } else if q <= -2 {
      MulMonotone(q, -2, m);
    }
  }

  /** (m * k) % m is 0. */
  lemma ReduceMultiple(m: int, k: int)
    requires m > 0
    ensures (m * k) % m == 0
  {
    var x := m * k;
    var q, r := x / m, x % m;
    assert x == m * q + r;
    assert m * (k - q) == r by {
      assert m * k - m * q == m * (k - q);
    }
    if k - q > 0 {
      MulMonotone(1, k - q, m);
    } else if k - q < 0 {
      MulMonotone(k - q, -1, m);
    }
  }
}
