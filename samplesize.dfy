/** `normalICDF` and `getWorstCaseSampleSize`: the number N of state vectors the simulation draws, from
    Fishman's worst-case bound N = ceil((z / (2 epsilon))^2) with z the (1 - delta/2)-quantile of the
    standard normal distribution. The normal CDF itself is a parameter `phi`. */
module SampleSize {
  import opened Wrappers
  import opened Numeric

  /** The precision 10^-10 of the bisection, both for the bracket width and for |phi(x) - u|. */
  const Tolerance: real := 0.0000000001

  /** The bisection starts from the bracket [-10, 10]. */
  const Low0: real := -10.0
  const High0: real := 10.0

  /** What the bisection knows about a bracket [lo, hi]: it lies inside [-10, 10], and each end is either
      the initial end or a point where phi was seen to be more than Tolerance below (resp. above) u. */
  predicate Brackets(phi: real -> real, u: real, lo: real, hi: real)
  {
    Low0 <= lo <= hi <= High0
    && (lo == Low0 || phi(lo) < u - Tolerance)
    && (hi == High0 || phi(hi) > u + Tolerance)
  }

  /** Every iteration halves the width, so the width measured in units of Tolerance, rounded down,
      strictly decreases while the width exceeds Tolerance. */
  lemma HalvingDecreases(low: real, high: real, x: real)
    requires high - low > Tolerance && x == (low + high) / 2.0
    ensures 0 <= ((x - low) * 10000000000.0).Floor < ((high - low) * 10000000000.0).Floor
    ensures ((high - x) * 10000000000.0).Floor < ((high - low) * 10000000000.0).Floor
  {
    var v := (high - low) * 10000000000.0;
    assert v > 1.0;
    assert (x - low) * 10000000000.0 == v / 2.0;
    assert (high - x) * 10000000000.0 == v / 2.0;
    var f := v.Floor;
    assert f >= 1;
    assert v / 2.0 < (f + 1) as real / 2.0 <= f as real;
  }

  /** The value the bisection of `normalICDF` settles on, started from the bracket [low, high] with
      current point x: while the bracket is wider than Tolerance it halves it around the midpoint,
      stops at the midpoint when phi there is within Tolerance of u, and otherwise keeps the half on
      the side of u; once the bracket is narrow enough the current point is the answer. */
  function Bisection(phi: real -> real, u: real, low: real, high: real, x: real): (r: real)
    ensures low <= x <= high ==> low <= r <= high
    decreases ((high - low) * 10000000000.0).Floor
  {
    if high - low > Tolerance then
      var mid := (low + high) / 2.0;
      HalvingDecreases(low, high, mid);
      if Abs(phi(mid) - u) <= Tolerance then mid
      else if phi(mid) < u then Bisection(phi, u, mid, high, mid)
      else Bisection(phi, u, low, mid, mid)
    else x
  }

  /** One step of the bisection: a bracket wider than Tolerance is halved around its midpoint. */
  lemma BisectionStep(phi: real -> real, u: real, low: real, high: real, x: real, mid: real)
    requires high - low > Tolerance && mid == (low + high) / 2.0
    ensures Abs(phi(mid) - u) <= Tolerance ==> Bisection(phi, u, low, high, x) == mid
    ensures Abs(phi(mid) - u) > Tolerance && phi(mid) < u
            ==> Bisection(phi, u, low, high, x) == Bisection(phi, u, mid, high, mid)
    ensures Abs(phi(mid) - u) > Tolerance && phi(mid) >= u
            ==> Bisection(phi, u, low, high, x) == Bisection(phi, u, low, mid, mid)
  {
  }

  /** What the bisection guarantees about its answer x and its final bracket [lo, hi]: x lies in the
      bracket, and phi(x) is within Tolerance of u or the bracket is at most Tolerance wide and x is one
      of its ends. */
  predicate Settled(phi: real -> real, u: real, lo: real, hi: real, x: real)
  {
    Low0 <= x <= High0 && Brackets(phi, u, lo, hi) && lo <= x <= hi
    && (Abs(phi(x) - u) <= Tolerance || (hi - lo <= Tolerance && (x == lo || x == hi)))
  }

  /** `normalICDF(u)`: fails unless 0 < u < 1. Otherwise it bisects [-10, 10] and returns the value
      `Bisection` settles on, a point x of the final bracket [lo, hi]: either phi(x) is within
      Tolerance of u, or the bracket has shrunk to width at most Tolerance and x is one of its ends. The bracket is returned as ghost outputs. */
  method NormalICDF(u: real, phi: real -> real) returns (r: Result<real>, ghost lo: real, ghost hi: real)
    ensures r.Failure? <==> u <= 0.0 || 1.0 <= u
    ensures r.Failure? ==> r.error == OutOfDomain
    ensures r.Success? ==> r.value == Bisection(phi, u, Low0, High0, 0.0)
    ensures r.Success? ==> Settled(phi, u, lo, hi, r.value)
  {
    if u <= 0.0 || u >= 1.0 {
      return Failure(OutOfDomain), Low0, High0;
    }
    var low, high := Low0, High0;
    var x := 0.0;
    ghost var target := Bisection(phi, u, Low0, High0, 0.0);
    while high - low > Tolerance
      invariant Brackets(phi, u, low, high)
      invariant low <= x <= high
      invariant (low == Low0 && high == High0) || x == low || x == high
      invariant Bisection(phi, u, low, high, x) == target
      decreases ((high - low) * 10000000000.0).Floor
    {
      ghost var previous := x;
      x := (low + high) / 2.0;
      BisectionStep(phi, u, low, high, previous, x);
      HalvingDecreases(low, high, x);
      var cdfVal := phi(x);
      if Abs(cdfVal - u) <= Tolerance {
        return Success(x), low, high;
      } else if cdfVal < u {
        low := x;
      } else {
        high := x;
      }
    }
    return Success(x), low, high;
  }

  /** For a non-decreasing phi the bracket does locate the quantile: every y whose phi(y) is within
      Tolerance of u lies strictly inside the bracket, except beyond an end that is still an initial one. */
  lemma BracketLocatesQuantile(phi: real -> real, u: real, lo: real, hi: real, y: real)
    requires forall a, b :: a <= b ==> phi(a) <= phi(b)
    requires Brackets(phi, u, lo, hi)
    requires Abs(phi(y) - u) <= Tolerance
    ensures lo == Low0 || lo < y
    ensures hi == High0 || y < hi
  {
  }

  /** Java's `(int)` cast of an integral double: values above Integer.MAX_VALUE saturate to it, and
      values below Integer.MIN_VALUE to that. */
  function IntCast(c: int): (r: int)
    ensures -IntMax - 1 <= r <= IntMax
    ensures -IntMax - 1 <= c <= IntMax ==> r == c
    ensures c > IntMax ==> r == IntMax
    ensures c < -IntMax - 1 ==> r == -IntMax - 1
  {
    if c > IntMax then IntMax else if c < -IntMax - 1 then -IntMax - 1 else c
  }

  lemma IntCastMonotone(a: int, b: int)
    requires a <= b
    ensures IntCast(a) <= IntCast(b)
  {
  }

  /** (int) ceil(v^2): the least integer at least v^2, saturated at Integer.MAX_VALUE. */
  function CeilSquare(v: real): (n: int)
    ensures 0 <= n <= IntMax
    ensures n == IntMax || v * v <= n as real
    ensures n == 0 || (n - 1) as real < v * v
  {
    assert 0.0 <= v * v by {
      if v < 0.0 {
        MulMonotone(v, 0.0, -v);
      } else {
        ProductNonNegative(v, v);
      }
    }
    IntCast(Ceil(v * v))
  }

  lemma SquareMonotoneNonNegative(x: real, y: real)
    requires 0.0 <= x <= y
    ensures x * x <= y * y
  {
    MulMonotone(x, y, x);
    MulMonotone(x, y, y);
  }

  /** Squaring is monotone in the absolute value. */
  lemma SquareMonotone(a: real, b: real)
    requires Abs(a) <= Abs(b)
    ensures a * a <= b * b
  {
    var x, y := if a < 0.0 then -a else a, if b < 0.0 then -b else b;
    assert a * a == x * x && b * b == y * y;
    SquareMonotoneNonNegative(x, y);
  }

  lemma CeilSquareMonotone(v1: real, v2: real)
    requires Abs(v1) <= Abs(v2)
    ensures CeilSquare(v1) <= CeilSquare(v2)
  {
    SquareMonotone(v1, v2);
    CeilMonotone(v1 * v1, v2 * v2);
    IntCastMonotone(Ceil(v1 * v1), Ceil(v2 * v2));
  }

  /** The Fishman bound for a quantile z and precision epsilon: (int) ceil((z / (2 epsilon))^2). */
  function SampleSizeFor(z: real, epsilon: real): (n: int)
    requires epsilon != 0.0
    ensures 0 <= n <= IntMax
  {
    CeilSquare(z / (2.0 * epsilon))
  }

  lemma QuotientMonotone(c: real, e1: real, e2: real)
    requires 0.0 <= c && 0.0 < e1 <= e2
    ensures c / e2 <= c / e1
  {
    var q1, q2 := c / e1, c / e2;
    assert q1 * e1 == c && q2 * e2 == c;
    assert q1 >= 0.0 && q2 >= 0.0;
    MulMonotone(e1, e2, q2);
    if q1 < q2 {
      MulMonotone(q1, q2, e1);
    }
  }

  lemma AbsQuotient(z: real, d: real)
    requires d != 0.0
    ensures Abs(z / d) == Abs(z) / Abs(d)
  {
  }

  /** A larger epsilon never asks for more samples. */
  lemma SampleSizeNonIncreasingInEpsilon(z: real, e1: real, e2: real)
    requires 0.0 < e1 <= e2
    ensures SampleSizeFor(z, e2) <= SampleSizeFor(z, e1)
  {
    AbsQuotient(z, 2.0 * e1);
    AbsQuotient(z, 2.0 * e2);
    QuotientMonotone(Abs(z), 2.0 * e1, 2.0 * e2);
    CeilSquareMonotone(z / (2.0 * e2), z / (2.0 * e1));
  }

  lemma QuotientMonotoneInNumerator(a: real, b: real, d: real)
    requires a <= b && d > 0.0
    ensures a / d <= b / d
  {
  }

  /** A quantile further from 0 never asks for fewer samples. */
  lemma SampleSizeMonotoneInQuantile(z1: real, z2: real, epsilon: real)
    requires epsilon != 0.0 && Abs(z1) <= Abs(z2)
    ensures SampleSizeFor(z1, epsilon) <= SampleSizeFor(z2, epsilon)
  {
    AbsQuotient(z1, 2.0 * epsilon);
    AbsQuotient(z2, 2.0 * epsilon);
    QuotientMonotoneInNumerator(Abs(z1), Abs(z2), Abs(2.0 * epsilon));
    CeilSquareMonotone(z1 / (2.0 * epsilon), z2 / (2.0 * epsilon));
  }

  /** `getWorstCaseSampleSize(epsilon, delta)`: z = normalICDF(1 - delta/2), which fails unless
      0 < delta < 2; otherwise z is the bisection's answer for u = 1 - delta/2, with everything
      `NormalICDF` guarantees about it, and the result is the Fishman bound for z. Since z lies in
      [-10, 10] the result is at most the bound for z = 10. The quantile and its final bracket are
      returned as ghost outputs. epsilon = 0 divides by zero in the source and is excluded. */
  method GetWorstCaseSampleSize(epsilon: real, delta: real, phi: real -> real)
    returns (n: Result<int>, ghost z: real, ghost lo: real, ghost hi: real)
    requires epsilon != 0.0
    ensures n.Failure? <==> delta <= 0.0 || 2.0 <= delta
    ensures n.Failure? ==> n.error == OutOfDomain
    ensures n.Success? ==> z == Bisection(phi, 1.0 - delta / 2.0, Low0, High0, 0.0)
    ensures n.Success? ==> Settled(phi, 1.0 - delta / 2.0, lo, hi, z)
    ensures n.Success? ==> n.value == SampleSizeFor(z, epsilon) && 0 <= n.value <= SampleSizeFor(High0, epsilon)
  {
    var q;
    q, lo, hi := NormalICDF(1.0 - delta / 2.0, phi);
    if q.Failure? {
      return Failure(q.error), 0.0, lo, hi;
    }
    var quantile := q.value;
    var value := quantile / (2.0 * epsilon);
    SampleSizeMonotoneInQuantile(quantile, High0, epsilon);
    SampleSizeFormula(quantile, epsilon, value);
    return Success(IntCast(Ceil(value * value))), quantile, lo, hi;
  }

  /** The bound written out as the source computes it. */
  lemma SampleSizeFormula(z: real, epsilon: real, value: real)
    requires epsilon != 0.0 && value == z / (2.0 * epsilon)
    ensures SampleSizeFor(z, epsilon) == IntCast(Ceil(value * value))
  {
  }

  /** The textbook case epsilon = delta = 0.05, where z = 1.959964, gives 385 samples. */
  lemma SampleSizeExample()
    ensures SampleSizeFor(1.959964, 0.05) == 385
  {
  }
}
