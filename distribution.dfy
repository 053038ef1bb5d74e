/** `calculatePMF` and `CDF`: the distribution of the number of working components of each link. */
module Distribution {
  import opened Numeric
  import opened Combinatorial
  import opened Network

  /** Entry k >= 1 of a link's PMF: (1/b) C(w, k) (r b)^k (1 - r b)^(w-k), the probability that exactly
      k of the link's w positively correlated components work. */
  function Term(w: nat, r: real, b: real, k: nat): (t: real)
    requires b != 0.0 && k <= w
    ensures 0.0 < b && 0.0 <= r * b <= 1.0 ==> 0.0 <= t
  {
    var ib := 1.0 / b;
    var v := ib * Binomial(w, k) * Pow(r * b, k) * Pow(1.0 - r * b, w - k);
    assert 0.0 < b && 0.0 <= r * b <= 1.0 ==> 0.0 <= v by {
      if 0.0 < b && 0.0 <= r * b <= 1.0 {
        assert ib * b == 1.0;
        assert 0.0 < ib;
        PowInUnitInterval(r * b, k);
        PowInUnitInterval(1.0 - r * b, w - k);
        ProductNonNegative(ib, Binomial(w, k));
        ProductNonNegative(ib * Binomial(w, k), Pow(r * b, k));
        ProductNonNegative(ib * Binomial(w, k) * Pow(r * b, k), Pow(1.0 - r * b, w - k));
      }
    }
    v
  }

  /** Entries 1..w of the row. */
  function Terms(w: nat, r: real, b: real): (t: seq<real>)
    requires b != 0.0
    ensures |t| == w
  {
    seq(w, j requires 0 <= j < w => Term(w, r, b, j + 1))
  }

  lemma TermsAt(w: nat, r: real, b: real, k: nat)
    requires b != 0.0 && 1 <= k <= w
    ensures Terms(w, r, b)[k - 1] == Term(w, r, b, k)
  {
    assert k - 1 + 1 == k;
  }

  /** The row `calculatePMF` fills for a link with w components: entries 1..w are the terms, and entry 0
      is 1 minus their sum. */
  function PMFRow(w: nat, r: real, b: real): (row: seq<real>)
    requires b != 0.0
    ensures |row| == w + 1
  {
    var t := Terms(w, r, b);
    [1.0 - Sum(t)] + t
  }

  /** Over exact reals every row sums to 1, whatever r and b are. */
  lemma PMFRowSumsToOne(w: nat, r: real, b: real)
    requires b != 0.0
    ensures Sum(PMFRow(w, r, b)) == 1.0
  {
    SumCons(1.0 - Sum(Terms(w, r, b)), Terms(w, r, b));
  }

  lemma ScaledStep(c: real, s: real, sPrev: real, t: real, e: real, x: real, xPrev: real, x1: real)
    requires s == sPrev + t && sPrev == c * (xPrev - x1) && t == c * e && x == xPrev + e
    ensures s == c * (x - x1)
  {
  }

  /** Entry k >= 1 is the k-th term of the expansion of (r b + (1 - r b))^w, scaled by 1/b. */
  lemma TermIsScaledExpansion(w: nat, r: real, b: real, k: nat)
    requires b != 0.0 && 1 <= k <= w
    ensures Term(w, r, b, k) == (1.0 / b) * Expansion(w, r * b, 1.0 - r * b)(k)
  {
    BinomialIsChoose(w, k);
    var x, y, z := Binomial(w, k), Pow(r * b, k), Pow(1.0 - r * b, w - k);
    assert Expansion(w, r * b, 1.0 - r * b)(k) == x * y * z;
    assert (1.0 / b) * x * y * z == (1.0 / b) * (x * y * z);
  }

  /** Each s[j] is c times u(j + 1). */
  predicate ScaledShift(s: seq<real>, u: int -> real, c: real)
  {
    forall j :: 0 <= j < |s| ==> s[j] == c * u(j + 1)
  }

  /** If each s[j] is c times u(j + 1), the first n entries of s add up to c times the sum of
      u(1), ..., u(n). */
  lemma {:induction false} ScaledPrefixSum(s: seq<real>, u: int -> real, c: real, n: nat)
    requires n <= |s|
    requires ScaledShift(s, u, c)
    ensures ScaledBy(Sum(s[..n]), c, PartialSum(u, n + 1) - PartialSum(u, 1))
  {
    if n == 0 {
      assert s[..0] == [];
    } else {
      var k := n - 1;
      ScaledPrefixSum(s, u, c, k);
      SumStep(s, k);
      assert s[k] == c * u(k + 1);
      ScaledStep(c, Sum(s[..k + 1]), Sum(s[..k]), s[k], u(k + 1),
                 PartialSum(u, k + 2), PartialSum(u, k + 1), PartialSum(u, 1));
    }
  }

  lemma TermsAreScaledExpansion(w: nat, r: real, b: real)
    requires b != 0.0
    ensures ScaledShift(Terms(w, r, b), Expansion(w, r * b, 1.0 - r * b), 1.0 / b)
  {
    forall j | 0 <= j < w
      ensures Terms(w, r, b)[j] == (1.0 / b) * Expansion(w, r * b, 1.0 - r * b)(j + 1)
    {
      TermIsScaledExpansion(w, r, b, j + 1);
    }
  }

  /** The expansion of (r b + (1 - r b))^w adds up to 1. */
  lemma ExpansionOfOne(w: nat, r: real, b: real)
    ensures PartialSum(Expansion(w, r * b, 1.0 - r * b), w + 1) == 1.0
  {
    BinomialTheorem(w, r * b, 1.0 - r * b);
    assert r * b + (1.0 - r * b) == 1.0;
    PowOne(w);
  }

  /** Its term for k = 0 is q^w. */
  lemma ExpansionFirst(w: nat, p: real, q: real)
    ensures PartialSum(Expansion(w, p, q), 1) == Pow(q, w)
  {
    assert Expansion(w, p, q)(0) == Choose(w, 0) * Pow(p, 0) * Pow(q, w);
  }

  /** By the binomial theorem the terms add up to (1/b)(1 - (1 - r b)^w), so entry 0 has that closed form. */
  lemma TermsSum(w: nat, r: real, b: real)
    requires b != 0.0
    ensures ScaledBy(Sum(Terms(w, r, b)), 1.0 / b, 1.0 - Pow(1.0 - r * b, w))
  {
    TermsAreScaledExpansion(w, r, b);
    ExpansionOfOne(w, r, b);
    ExpansionFirst(w, r * b, 1.0 - r * b);
    ScaledSumClosedForm(Terms(w, r, b), w, Expansion(w, r * b, 1.0 - r * b), 1.0 / b, Pow(1.0 - r * b, w));
  }

  lemma PMFZeroClosedForm(w: nat, r: real, b: real)
    requires b != 0.0
    ensures Sum(Terms(w, r, b)) == (1.0 / b) * (1.0 - Pow(1.0 - r * b, w))
    ensures PMFRow(w, r, b)[0] == 1.0 - (1.0 / b) * (1.0 - Pow(1.0 - r * b, w))
  {
    TermsSum(w, r, b);
    PMFRowFirst(w, r, b);
  }

  /** If s[j] = c u(j + 1) for every j and u(0), ..., u(|s|) add up to 1, then s adds up to c (1 - u(0)). */
  lemma ScaledSumClosedForm(s: seq<real>, n: nat, u: int -> real, c: real, x: real)
    requires |s| == n && ScaledShift(s, u, c)
    requires PartialSum(u, n + 1) == 1.0 && PartialSum(u, 1) == x
    ensures ScaledBy(Sum(s), c, 1.0 - x)
  {
    ScaledPrefixSum(s, u, c, n);
    assert s[..n] == s;
    ClosedFormAlgebra(Sum(s), c, PartialSum(u, n + 1), PartialSum(u, 1), x);
  }

  lemma PMFRowFirst(w: nat, r: real, b: real)
    requires b != 0.0
    ensures PMFRow(w, r, b)[0] == 1.0 - Sum(Terms(w, r, b))
  {
  }

  lemma ClosedFormAlgebra(s: real, c: real, a: real, a0: real, x: real)
    requires ScaledBy(s, c, a - a0) && a == 1.0 && a0 == x
    ensures ScaledBy(s, c, 1.0 - x)
  {
  }

  predicate IsDistribution(row: seq<real>)
  {
    NonNegative(row) && Sum(row) == 1.0
  }

  /** When b >= 1 and r b is a probability, every entry of the row is a probability and they add up
      to 1: the row is a probability distribution over 0..w working components. */
  lemma PMFRowIsDistribution(w: nat, r: real, b: real)
    requires b >= 1.0 && 0.0 <= r * b <= 1.0
    ensures IsDistribution(PMFRow(w, r, b))
  {
    var row := PMFRow(w, r, b);
    var ib := 1.0 / b;
    assert 0.0 < ib <= 1.0 by {
      assert ib * b == 1.0;
      if ib > 1.0 {
        MulMonotone(1.0, ib, b);
      }
    }
    PMFRowSumsToOne(w, r, b);
    PMFZeroClosedForm(w, r, b);
    PowInUnitInterval(1.0 - r * b, w);
    var x := 1.0 - Pow(1.0 - r * b, w);
    MulMonotone(ib, 1.0, x);
    ProductNonNegative(ib, x);
    forall k | 1 <= k <= w
      ensures 0.0 <= row[k]
    {
      assert row[k] == Term(w, r, b, k);
    }
  }

  /** The body of the outer loop of `calculatePMF()` for one link: entry k >= 1 is Term(k), added to
      sumProb, and entry 0 is 1 - sumProb. */
  method FillPMFRow(w: nat, r: real, b: real) returns (pmfRow: seq<real>)
    requires b != 0.0
    ensures pmfRow == PMFRow(w, r, b)
  {
    var row := new real[w + 1];
    ghost var t := Terms(w, r, b);
    var sumProb := 0.0;
    for k := 1 to w + 1
      invariant sumProb == Sum(t[..k - 1])
      invariant forall j :: 1 <= j < k ==> row[j] == t[j - 1]
    {
      row[k] := (1.0 / b) * Binomial(w, k) * Pow(r * b, k) * Pow(1.0 - r * b, w - k);
      TermsAt(w, r, b, k);
      SumLast(t, k);
      sumProb := sumProb + row[k];
    }
    row[0] := 1.0 - sumProb;
    assert t[..w] == t;
    pmfRow := row[..];
    assert pmfRow == PMFRow(w, r, b);
  }

  /** `calculatePMF()`: one row per link, of W[i] + 1 entries. A valid network's rows are probability
      distributions. */
  method CalculatePMF(net: MFN) returns (pmf: seq<seq<real>>)
    requires net.Valid()
    requires forall i :: 0 <= i < net.m ==> net.W[i] >= 0
    ensures |pmf| == net.m
    ensures forall i :: 0 <= i < net.m ==> pmf[i] == PMFRow(net.W[i], net.R[i], net.beta[i])
    ensures forall i :: 0 <= i < net.m ==> |pmf[i]| == net.W[i] + 1 && IsDistribution(pmf[i])
  {
    pmf := [];
    for i := 0 to net.m
      invariant |pmf| == i
      invariant forall j :: 0 <= j < i ==> pmf[j] == PMFRow(net.W[j], net.R[j], net.beta[j])
    {
      var row := FillPMFRow(net.W[i], net.R[i], net.beta[i]);
      pmf := pmf + [row];
    }
    forall i | 0 <= i < net.m
      ensures IsDistribution(pmf[i])
    {
      PMFRowIsDistribution(net.W[i], net.R[i], net.beta[i]);
    }
  }

  /** The row `CDF` builds from one PMF row p: the running sum of p clamped to at most 1, with the last
      entry pinned to 1. */
  function CDFRow(p: seq<real>): (c: seq<real>)
    requires |p| > 0
    ensures |c| == |p| && c[|p| - 1] == 1.0
    ensures forall k :: 0 <= k < |p| ==> c[k] <= 1.0
  {
    seq(|p|, k requires 0 <= k < |p| => if k == |p| - 1 then 1.0 else Min(Sum(p[..k + 1]), 1.0))
  }

  /** Over non-negative entries the CDF never decreases. */
  lemma CDFRowNonDecreasing(p: seq<real>)
    requires |p| > 0 && NonNegative(p)
    ensures NonDecreasing(CDFRow(p))
  {
    var c := CDFRow(p);
    forall i, j | 0 <= i <= j < |c|
      ensures c[i] <= c[j]
    {
      if j < |c| - 1 {
        PrefixSumMonotone(p, i + 1, j + 1);
      }
    }
  }

  /** For a probability distribution the clamp and the pin change nothing: entry k is exactly the sum
      of p[0..k], so entry 0 is p[0] and each later entry adds exactly p[k]. */
  lemma CDFRowOfDistribution(p: seq<real>)
    requires |p| > 0 && IsDistribution(p)
    ensures forall k :: 0 <= k < |p| ==> CDFRow(p)[k] == Sum(p[..k + 1])
    ensures CDFRow(p)[0] == p[0]
    ensures forall k :: 0 < k < |p| ==> CDFRow(p)[k] - CDFRow(p)[k - 1] == p[k]
  {
    var c := CDFRow(p);
    assert p[..|p|] == p;
    forall k | 0 <= k < |p|
      ensures c[k] == Sum(p[..k + 1])
    {
      PrefixSumMonotone(p, k + 1, |p|);
    }
    assert p[..1] == [p[0]];
    assert Sum(p[..1]) == Sum(p[..0]) + p[0] by {
      SumStep(p, 0);
    }
    forall k | 0 < k < |p|
      ensures c[k] - c[k - 1] == p[k]
    {
      SumStep(p, k);
    }
  }

  /** `CDF(arPMF)`: one row per PMF row, of the same length, built by CDFRow. Every row must be
      non-empty, as the source writes its last entry. */
  method CDF(pmf: seq<seq<real>>) returns (cdf: seq<seq<real>>)
    requires forall i :: 0 <= i < |pmf| ==> |pmf[i]| > 0
    ensures |cdf| == |pmf|
    ensures forall i :: 0 <= i < |pmf| ==> cdf[i] == CDFRow(pmf[i])
  {
    cdf := [];
    for i := 0 to |pmf|
      invariant |cdf| == i
      invariant forall j :: 0 <= j < i ==> cdf[j] == CDFRow(pmf[j])
    {
      var p := pmf[i];
      var row := new real[|p|];
      var sum := 0.0;
      for k := 0 to |p|
        invariant sum == Sum(p[..k])
        invariant forall j :: 0 <= j < k ==> row[j] == Min(Sum(p[..j + 1]), 1.0)
      {
        SumStep(p, k);
        sum := sum + p[k];
        row[k] := Min(sum, 1.0);
      }
      row[|p| - 1] := 1.0;
      assert row[..] == CDFRow(p);
      cdf := cdf + [row[..]];
    }
  }
}
