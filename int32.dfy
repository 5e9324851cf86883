/** The C `int` of the benchmark: a signed 32-bit two's-complement integer.
    Every `+=` in the kernels wraps modulo 2^32, and C's `/` and `%`
    truncate toward zero; both are written out here on unbounded `int`. */
module Int32 {

  const TwoTo31: int := 0x8000_0000
  const TwoTo32: int := 0x1_0000_0000

  /** The values a C `int` can hold. */
  type I32 = x: int | -0x8000_0000 <= x < 0x8000_0000

  /** Two's-complement wrap-around of a mathematical sum into a C `int`:
      add or subtract 2^32 until the value lies in the I32 range. */
  function Wrap(x: int): I32
    decreases if x < -TwoTo31 then -x else if x < TwoTo31 then 0 else x
  {
    if x < -TwoTo31 then Wrap(x + TwoTo32)
    else if x < TwoTo31 then x
    else Wrap(x - TwoTo32)
  }

  /** Wrap(x) is the C `int` congruent to x modulo 2^32, and a value already
      in range is left as it is. */
  lemma {:induction false} WrapMod(x: int)
    ensures (Wrap(x) - x) % TwoTo32 == 0
    ensures -TwoTo31 <= x < TwoTo31 ==> Wrap(x) == x
    decreases if x < -TwoTo31 then -x else if x < TwoTo31 then 0 else x
  {
    if x < -TwoTo31 {
      WrapMod(x + TwoTo32);
    } else if x >= TwoTo31 {
      WrapMod(x - TwoTo32);
    }
  }

  /** Multiples of 2^32 are closed under addition and subtraction. */
  lemma MultiplesClosed(u: int, v: int)
    requires u % TwoTo32 == 0 && v % TwoTo32 == 0
    ensures (u + v) % TwoTo32 == 0 && (u - v) % TwoTo32 == 0
  {
  }

  /** Two mathematical integers wrap to the same C `int` exactly when they
      are congruent modulo 2^32. */
  lemma WrapCongruent(x: int, y: int)
    ensures Wrap(x) == Wrap(y) <==> (x - y) % TwoTo32 == 0
  {
    WrapMod(x);
    WrapMod(y);
    // Wrap(x) - Wrap(y) == (x - y) + (Wrap(x) - x) - (Wrap(y) - y)
    MultiplesClosed(Wrap(x) - x, Wrap(y) - y);
    var d := (Wrap(x) - x) - (Wrap(y) - y);
    if Wrap(x) == Wrap(y) {
      MultiplesClosed(0, d);
      assert x - y == 0 - d;
    }
    if (x - y) % TwoTo32 == 0 {
      MultiplesClosed(x - y, d);
      assert Wrap(x) - Wrap(y) == (x - y) + d;
      // the only multiple of 2^32 strictly between -2^32 and 2^32 is 0
      assert (Wrap(x) - Wrap(y)) / TwoTo32 == 0;
    }
  }

  /** Wrapping an intermediate result does not change the final wrapped
      sum: a running 32-bit accumulator agrees with the mathematical sum
      wrapped once at the end. */
  lemma WrapAdd(x: int, y: int)
    ensures Wrap(Wrap(x) + y) == Wrap(x + y)
  {
    WrapMod(x);
    var u, v := Wrap(x) + y, x + y;
    assert u - v == Wrap(x) - x;
    WrapCongruent(u, v);
  }

  /** The same when both operands were wrapped, as in `_mm_add_epi32` and
      in adding a stored lane to a running sum. */
  lemma WrapAddBoth(x: int, y: int)
    ensures Wrap(Wrap(x) + Wrap(y)) == Wrap(x + y)
  {
    WrapAdd(y, Wrap(x));
    WrapAdd(x, y);
    assert Wrap(y) + Wrap(x) == Wrap(x) + Wrap(y);
  }

  /** C's `/` on `int`: the quotient truncated toward zero. */
  function CQuot(x: int, d: int): (q: int)
    requires d > 0
    ensures x >= 0 ==> 0 <= x - q * d < d
    ensures x < 0 ==> -d < x - q * d <= 0
  {
    if x >= 0 then x / d else -((-x) / d)
  }

  /** C's `%` on `int`: the remainder takes the sign of the dividend. */
  function CRem(x: int, d: int): (r: int)
    requires d > 0
    ensures x == CQuot(x, d) * d + r
    ensures x >= 0 ==> 0 <= r < d
    ensures x < 0 ==> -d < r <= 0
  {
    x - CQuot(x, d) * d
  }

  /** `n - n % 4` is a multiple of 4 whose C quotient by 4 is exact; it
      lies in [0, n] for n >= 0 and in [n, 0] for n < 0. */
  lemma WholeChunks(n: int)
    ensures n - CRem(n, 4) == 4 * CQuot(n - CRem(n, 4), 4)
    ensures n - CRem(n, 4) == 4 * CQuot(n, 4)
    ensures CQuot(n - CRem(n, 4), 4) == CQuot(n, 4)
    ensures n >= 0 ==> 0 <= n - CRem(n, 4) <= n
    ensures n < 0 ==> n <= n - CRem(n, 4) <= 0
  {
  }
}
