/** Go's durations: signed 64-bit counts of nanoseconds whose arithmetic wraps around and whose
division truncates toward zero.
 */
module Durations {

  const MAXIMUM: int := 0x7fff_ffff_ffff_ffff
  const MINIMUM: int := -0x8000_0000_0000_0000

  type Duration = d: int | MINIMUM <= d <= MAXIMUM

  /** The 64-bit value an exact result wraps around to. */
  function Wrap(x: int): (d: Duration)
    ensures Fits64(x) ==> d == x
  {
    (x - MINIMUM) % 0x1_0000_0000_0000_0000 + MINIMUM
  }

  /** Wrapping around changes a result by a multiple of two to the 64. */
  lemma WrapIsCongruent(x: int)
    ensures (Wrap(x) - x) % 0x1_0000_0000_0000_0000 == 0
  {
  }

  predicate Fits64(x: int) {
    MINIMUM <= x <= MAXIMUM
  }

  /** Sums, differences and products where nothing may wrap around: whoever uses one has to show
      that its exact result is a duration. */
  function Add(a: Duration, b: Duration): (d: Duration)
    requires Fits64(a + b)
    ensures d == a + b
  {
    Wrap(a + b)
  }

  function Sub(a: Duration, b: Duration): (d: Duration)
    requires Fits64(a - b)
    ensures d == a - b
  {
    Wrap(a - b)
  }

  function Times(k: int, a: Duration): (d: Duration)
    requires Fits64(k * a)
    ensures d == k * a
  {
    Wrap(k * a)
  }

  /** Division by a positive constant. */
  function Quotient(a: Duration, k: int): (q: Duration)
    requires 0 < k
    ensures 0 <= a ==> q == a / k
  {
    if 0 <= a then a / k else Wrap(-((0 - a as int) / k))
  }

  /** The divisions there are leave a remainder with the sign of what is divided. */
  lemma QuotientTruncates(a: Duration, k: int)
    requires k == 2 || k == 3 || k == 5
    ensures 0 <= a ==> 0 <= a - Quotient(a, k) as int * k < k
    ensures a < 0 ==> -k < a - Quotient(a, k) as int * k <= 0
  {
    if k == 2 {
      assert 0 <= a ==> 0 <= a - Quotient(a, 2) * 2 < 2;
    } else if k == 3 {
      assert 0 <= a ==> 0 <= a - Quotient(a, 3) * 3 < 3;
    } else {
      assert 0 <= a ==> 0 <= a - Quotient(a, 5) * 5 < 5;
    }
  }

  function Smaller(a: Duration, b: Duration): (d: Duration)
    ensures (d == a || d == b) && d <= a && d <= b
  {
    if b < a then b else a
  }

  function Larger(a: Duration, b: Duration): (d: Duration)
    ensures (d == a || d == b) && a <= d && b <= d
  {
    if a < b then b else a
  }
}
