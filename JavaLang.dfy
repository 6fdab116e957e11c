/**
 * The slice of the Java platform the search service leans on: nullable values,
 * the exceptions it can raise, doubles, and the narrowing casts it applies to
 * engine counts and range boundaries.
 */
module JavaLang {

  /** A Java reference that may be null. */
  datatype Option<+T> = None | Some(value: T)

  /** The unchecked exceptions the service can raise by itself. */
  datatype Failure =
    | NumberFormat            // Double.parseDouble on a bound that is not a number
    | ArrayIndexOutOfBounds   // a split range literal with fewer than two parts
    | StringIndexOutOfBounds  // substring(1, 0) on a one-character range literal
    | ClassCast               // an aggregation of the other kind under a facet's key
    | NullPointer             // no aggregations in the response, or no facet map
    | NegativeArraySize       // more malformed hits than kept documents

  /** The outcome of a computation that may throw. */
  datatype Result<+T> = Success(value: T) | Error(failure: Failure)

  /** The state a loop reached, and the exception that ended it early, if any. */
  datatype Partial<+T> = Partial(reached: T, thrown: Option<Failure>)

  /** A Java double: a finite value, an infinity, or NaN. Rounding is not modelled. */
  datatype Double = Finite(x: real) | PositiveInfinity | NegativeInfinity | NaN

  const LONG_MIN: int := -0x8000_0000_0000_0000
  const LONG_MAX: int := 0x7FFF_FFFF_FFFF_FFFF
  const INT_MIN: int := -0x8000_0000
  const INT_MAX: int := 0x7FFF_FFFF

  /** Rounds toward zero, as every Java narrowing conversion of a floating value does. */
  function TruncateTowardZero(x: real): (n: int)
    ensures 0.0 <= x ==> n as real <= x < n as real + 1.0
    ensures x < 0.0 ==> n as real - 1.0 < x <= n as real
  {
    if x >= 0.0 then x.Floor else -((-x).Floor)
  }

  /** The cast `(long) d` (JLS 5.1.3): NaN gives 0, out-of-range values saturate. */
  function DoubleToLong(d: Double): (n: int)
    ensures LONG_MIN <= n <= LONG_MAX
    ensures d.NaN? ==> n == 0
    ensures d.PositiveInfinity? ==> n == LONG_MAX
    ensures d.NegativeInfinity? ==> n == LONG_MIN
    ensures d.Finite? && 0.0 <= d.x <= LONG_MAX as real ==> n as real <= d.x < n as real + 1.0
    ensures d.Finite? && LONG_MIN as real <= d.x < 0.0 ==> n as real - 1.0 < d.x <= n as real
    ensures d.Finite? && d.x >= LONG_MAX as real + 1.0 ==> n == LONG_MAX
    ensures d.Finite? && d.x <= LONG_MIN as real - 1.0 ==> n == LONG_MIN
  {
    match d
    case NaN => 0
    case PositiveInfinity => LONG_MAX
    case NegativeInfinity => LONG_MIN
    case Finite(x) =>
      var t := TruncateTowardZero(x);
      if t < LONG_MIN then LONG_MIN else if t > LONG_MAX then LONG_MAX else t
  }

  /** The cast `(int) n` of a long: keeps the low 32 bits, read as two's complement. */
  function LongToInt(n: int): (r: int)
    ensures INT_MIN <= r <= INT_MAX
    ensures (n - r) % 0x1_0000_0000 == 0
    ensures INT_MIN <= n <= INT_MAX ==> r == n
  {
    var low := n % 0x1_0000_0000;
    if low > INT_MAX then low - 0x1_0000_0000 else low
  }
}
