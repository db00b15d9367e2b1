/**
 * Fixed-width integer arithmetic of the C++ simulator, written out on
 * unbounded integers: `U32` is the wrap-around of an `uint32_t` result.
 */
module MachineInts {
  const TWO_32: int := 0x1_0000_0000
  const TWO_63: int := 0x8000_0000_0000_0000

  predicate IsU32(x: int) { 0 <= x < TWO_32 }

  predicate IsI64(x: int) { -TWO_63 <= x < TWO_63 }

  /** The value an `uint32_t` holds after being assigned `x`. */
  function U32(x: int): (r: int)
    ensures IsU32(r)
    ensures IsU32(x) ==> r == x
    ensures (r - x) % TWO_32 == 0
  {
    x % TWO_32
  }

  /** The value an `int32_t` holds after being assigned `x` (two's complement). */
  function I32(x: int): (r: int)
    ensures -0x8000_0000 <= r < 0x8000_0000
    ensures -0x8000_0000 <= x < 0x8000_0000 ==> r == x
  {
    (x + 0x8000_0000) % TWO_32 - 0x8000_0000
  }

  /** C++ integer division by a positive divisor: the quotient is truncated toward zero. */
  function TruncDiv(a: int, b: int): (q: int)
    requires b > 0
    ensures a >= 0 ==> q * b <= a < q * b + b
    ensures a < 0 ==> q * b >= a > q * b - b
  {
    if a >= 0 then a / b else -((-a) / b)
  }

  /** A positive multiple of m is at least m. */
  lemma MultipleAtLeast(a: int, m: int)
    requires a >= 1 && m >= 0
    ensures a * m >= m
  {
    var b := a - 1;
    assert b * m >= 0;
    assert a * m == b * m + m;
  }

  /** Division with remainder is unique: the quotient and remainder of x by m are q and r. */
  lemma DivModUnique(x: int, m: int, q: int, r: int)
    requires m > 0 && x == q * m + r && 0 <= r < m
    ensures x / m == q && x % m == r
  {
    var q', r' := x / m, x % m;
    assert x == q' * m + r';
    var d := q - q';
    assert d * m == r' - r;
    if d > 0 {
      MultipleAtLeast(d, m);
    } else if d < 0 {
      MultipleAtLeast(-d, m);
    }
  }
}
