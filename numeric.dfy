/** Exact real arithmetic standing in for the Java `double` and `int` operations of the engine. */
module Numeric {

  /** `Double.MAX_VALUE`, that is (2 - 2^-52) * 2^1023. */
  const DoubleMax: real := 179769313486231570814527423731704356798070567525844996598917476803157260780028538760589558632766878171540458953514382464234321326889464182768467546703537516986049910576551282076245490090389328944075868508455133942304583236903222948165808559332123348274797826204144723168738177180919299881250404026184124858368.0

  /** `Integer.MAX_VALUE`, the value a Java `(int)` cast of a larger double saturates to. */
  const IntMax: int := 0x7fff_ffff

  /** `Integer.MIN_VALUE` */
  const IntMin: int := -0x8000_0000

  /** Java `int` addition wraps around modulo 2^32 into [Integer.MIN_VALUE, Integer.MAX_VALUE]. */
  function Wrap32(x: int): (r: int)
    ensures IntMin <= r <= IntMax
    ensures IntMin <= x <= IntMax ==> r == x
  {
    (x - IntMin) % 0x1_0000_0000 + IntMin
  }

  lemma ModShift(y: int, q: int)
    ensures (y - q * 0x1_0000_0000) % 0x1_0000_0000 == y % 0x1_0000_0000
  {
  }

  /** Wrapping after every addition gives the same int as wrapping once at the end. */
  lemma Wrap32Add(a: int, b: int)
    ensures Wrap32(Wrap32(a) + b) == Wrap32(a + b)
  {
    var x := a - IntMin;
    ModShift(x + b, x / 0x1_0000_0000);
  }

  /** `Math.min` */
  function Min(x: real, y: real): (r: real)
    ensures r <= x && r <= y
    ensures r == x || r == y
  {
    if x <= y then x else y
  }

  /** `Math.abs` */
  function Abs(x: real): (r: real)
    ensures 0.0 <= r && (r == x || r == -x)
  {
    if x < 0.0 then -x else x
  }

  /** `Math.ceil`: the least integer that is at least x. */
  function Ceil(x: real): (c: int)
    ensures x <= c as real < x + 1.0
  {
    -((-x).Floor)
  }

  lemma CeilMonotone(x: real, y: real)
    requires x <= y
    ensures Ceil(x) <= Ceil(y)
  {
  }

  /** x (y z) = w, kept behind a name so that equal products are matched as terms. */
  predicate ProductIs(x: real, y: real, z: real, w: real)
  {
    x * (y * z) == w
  }

  /** x = c y */
  predicate ScaledBy(x: real, c: real, y: real)
  {
    x == c * y
  }

  lemma MulMonotone(a: real, b: real, c: real)
    requires a <= b && 0.0 <= c
    ensures a * c <= b * c
  {
  }

  lemma ProductNonNegative(a: real, b: real)
    requires 0.0 <= a && 0.0 <= b
    ensures 0.0 <= a * b
  {
    MulMonotone(0.0, a, b);
  }

  /** `Math.pow` with a non-negative integer exponent. */
  function Pow(x: real, n: nat): real
  {
    if n == 0 then 1.0 else x * Pow(x, n - 1)
  }

  lemma {:induction false} PowInUnitInterval(x: real, n: nat)
    requires 0.0 <= x <= 1.0
    ensures 0.0 <= Pow(x, n) <= 1.0
  {
    if n > 0 {
      PowInUnitInterval(x, n - 1);
      var y := Pow(x, n - 1);
      assert Pow(x, n) == x * y;
      assert 0.0 <= x * y by { assert 0.0 * y <= x * y; }
      assert x * y <= 1.0 * y;
    }
  }

  lemma {:induction false} PowOne(n: nat)
    ensures Pow(1.0, n) == 1.0
  {
    if n > 0 {
      PowOne(n - 1);
    }
  }

  /** Every entry is at most every later entry. */
  predicate NonDecreasing(s: seq<real>)
  {
    forall i, j :: 0 <= i <= j < |s| ==> s[i] <= s[j]
  }

  /** The running sum `sum += s[k]` of a loop over s, from left to right. */
  function Sum(s: seq<real>): real
  {
    if s == [] then 0.0 else Sum(s[..|s| - 1]) + s[|s| - 1]
  }

  lemma SumStep(s: seq<real>, k: nat)
    requires k < |s|
    ensures Sum(s[..k + 1]) == Sum(s[..k]) + s[k]
  {
    assert s[..k + 1][..k] == s[..k];
  }

  /** SumStep, stated for the entry just before position k. */
  lemma SumLast(s: seq<real>, k: nat)
    requires 0 < k <= |s|
    ensures Sum(s[..k]) == Sum(s[..k - 1]) + s[k - 1]
  {
    assert s[..k][..k - 1] == s[..k - 1];
  }

  lemma {:induction false} SumCons(x: real, s: seq<real>)
    ensures Sum([x] + s) == x + Sum(s)
  {
    if s != [] {
      var n := |s|;
      assert ([x] + s)[..n] == [x] + s[..n - 1];
      SumCons(x, s[..n - 1]);
    }
  }

  predicate NonNegative(s: seq<real>)
  {
    forall k :: 0 <= k < |s| ==> 0.0 <= s[k]
  }

  /** Over non-negative entries the prefix sums grow with the prefix. */
  lemma {:induction false} PrefixSumMonotone(s: seq<real>, i: nat, j: nat)
    requires NonNegative(s) && i <= j <= |s|
    ensures Sum(s[..i]) <= Sum(s[..j])
  {
    if i < j {
      PrefixSumMonotone(s, i, j - 1);
      SumStep(s, j - 1);
    }
  }
}
