/** Numbers split at a power of two: quotient and remainder determine each other. */
module Arithmetic {

  lemma AtLeast(a: int, b: int)
    requires a >= 1 && b >= 0
    ensures a * b >= b
  {
  }

  lemma Unique(q: int, r: int, q': int, r': int, unit: int)
    requires 0 <= r < unit && 0 <= r' < unit && q * unit + r == q' * unit + r'
    ensures q == q' && r == r'
  {
    assert (q - q') * unit == r' - r;
    if q > q' {
      AtLeast(q - q', unit);
    } else if q < q' {
      AtLeast(q' - q, unit);
    }
  }

  /** The parts of `low + high * unit` are `low` and `high`. */
  lemma Parts(low: int, high: int, unit: int)
    requires 0 <= low < unit
    ensures (low + high * unit) / unit == high && (low + high * unit) % unit == low
  {
    var v := low + high * unit;
    Unique(high, low, v / unit, v % unit, unit);
  }
}
