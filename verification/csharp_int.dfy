/**
  The C# `int` arithmetic the modelled code relies on: 32-bit two's complement
  wrap-around in an `unchecked` context, and `/` and `%` that truncate toward zero
  (Dafny's own `/` and `%` are Euclidean).
 */
module CSharpInt {

  const TwoTo31: int := 0x8000_0000
  const TwoTo32: int := 0x1_0000_0000

  predicate IsInt32(x: int) {
    -TwoTo31 <= x < TwoTo31
  }

  /** A C# `int` value. */
  type Int32 = x: int | IsInt32(x)

  /** Reduces an unbounded result to the `int` that unchecked C# arithmetic yields. */
  function Wrap32(x: int): (r: Int32)
    ensures IsInt32(x) ==> r == x
    ensures (x - r) % TwoTo32 == 0
  {
    var u := x % TwoTo32;
    if u >= TwoTo31 then u - TwoTo32 else u
  }

  /** `x++` then `x--` on a C# `int` gives back `x`, even across the wrap at `int.MaxValue`. */
  lemma IncrementDecrement(x: Int32)
    ensures Wrap32(Wrap32(x + 1) - 1) == x
  {
    assert IsInt32(x);
    if x == TwoTo31 - 1 {
      assert Wrap32(x + 1) == -TwoTo31;
      assert (-TwoTo31 - 1) % TwoTo32 == TwoTo31 - 1;
      assert Wrap32(-TwoTo31 - 1) == TwoTo31 - 1;
    } else {
      assert IsInt32(x + 1);
    }
  }

  /** Dafny's `/` and `%` on a non-negative dividend: a non-negative quotient bracketing the dividend. */
  lemma FloorDivBounds(n: int, b: int)
    requires n >= 0 && b > 0
    ensures n == (n / b) * b + n % b && 0 <= n % b < b
    ensures 0 <= n / b && (n / b) * b <= n < (n / b) * b + b
  {
    var q, r := n / b, n % b;
    assert n == q * b + r && 0 <= r < b;
    assert (q + 1) * b == q * b + b > 0;
    PositiveFactor(q + 1, b);
  }

  /** A product with a positive factor is positive only when the other factor is. */
  lemma PositiveFactor(x: int, b: int)
    requires b > 0 && x * b > 0
    ensures x > 0
  {
  }

  /** C# `a / b` for a positive divisor: the quotient truncated toward zero. */
  function Div(a: int, b: int): (q: int)
    requires b > 0
    ensures a >= 0 ==> 0 <= q && q * b <= a < q * b + b
    ensures a < 0 ==> q <= 0 && q * b - b < a <= q * b
  {
    if a >= 0 then
      FloorDivBounds(a, b);
      a / b
    else
      FloorDivBounds(-a, b);
      -((-a) / b)
  }

  /** C# `a % b` for a positive divisor: the remainder takes the sign of `a`. */
  function Rem(a: int, b: int): (r: int)
    requires b > 0
    ensures a == Div(a, b) * b + r
    ensures a >= 0 ==> 0 <= r < b
    ensures a < 0 ==> -b < r <= 0
  {
    if a >= 0 then
      FloorDivBounds(a, b);
      a % b
    else
      FloorDivBounds(-a, b);
      -((-a) % b)
  }
}
