/** Java's and C#'s 32-bit signed `int`: its range, two's-complement wrap-around
    and division truncated toward zero. */
module Int32 {

  const MIN: int := -0x8000_0000
  const MAX: int := 0x7fff_ffff
  const MODULUS: int := 0x1_0000_0000

  predicate InRange(x: int) {
    MIN <= x <= MAX
  }

  /** The value a 32-bit `int` holds after an overflowing operation whose exact result is x. */
  function Wrap(x: int): (r: int)
    ensures InRange(r)
    ensures InRange(x) ==> r == x
  {
    (x - MIN) % MODULUS + MIN
  }

  /** Java's `/` on ints: rounds toward zero (Dafny's `/` is Euclidean). */
  function JavaDiv(a: int, b: int): (q: int)
    requires b > 0
    ensures a >= 0 ==> q == a / b
    ensures a < 0 ==> q == -((-a) / b)
  {
    if a >= 0 then a / b else -((-a) / b)
  }

  /** Java's and C#'s `%` on ints: the remainder of the truncating division,
      so it takes the sign of `a` (Dafny's `%` is never negative). */
  function JavaRem(a: int, b: int): (m: int)
    requires b > 0
    ensures a == JavaDiv(a, b) * b + m
    ensures a >= 0 ==> m == a % b
    ensures a < 0 ==> -b < m <= 0
  {
    a - JavaDiv(a, b) * b
  }

  /** Wrapping changes a value by a whole number of 2^32 steps. */
  lemma {:induction false} WrapShift(x: int) returns (d: int)
    ensures Wrap(x) == x + d * MODULUS
  {
    d := -((x - MIN) / MODULUS);
  }

  /** Adding to a wrapped value and wrapping again is wrapping the exact sum:
      a running 32-bit sum is the wrapped exact sum. */
  lemma {:induction false} WrapAdd(x: int, a: int)
    ensures Wrap(Wrap(x) + a) == Wrap(x + a)
  {
    var d := WrapShift(x);
    ModShift(x + a - MIN, d);
  }

  lemma {:induction false} ModShift(a: int, d: int)
    ensures (a + d * MODULUS) % MODULUS == a % MODULUS
  {
  }
}
