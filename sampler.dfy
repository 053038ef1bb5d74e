/** `randomSSV`: drawing system state vectors by the inverse-CDF method. `Math.random()` is replaced by
    the draws it would have returned, in the order the source asks for them. */
module StateSampler {
  import opened Numeric
  import opened Network

  /** The index the source's linear scan stops at: the least k with u <= c[k], or |c| when there is
      none. */
  function InverseCdfIndex(c: seq<real>, u: real): (k: nat)
    ensures k <= |c|
    ensures forall j :: 0 <= j < k ==> c[j] < u
    ensures k < |c| ==> u <= c[k]
  {
    if c == [] then 0 else if c[0] >= u then 0 else 1 + InverseCdfIndex(c[1..], u)
  }

  /** The two properties above determine the index: any k with them is the one the scan returns. */
  lemma InverseCdfIndexUnique(c: seq<real>, u: real, k: nat)
    requires k <= |c|
    requires forall j :: 0 <= j < k ==> c[j] < u
    requires k < |c| ==> u <= c[k]
    ensures InverseCdfIndex(c, u) == k
  {
  }

  /** The inverse transform: over a non-decreasing CDF row the draw u yields k = j exactly when u falls
      in (c[j-1], c[j]] (in (-inf, c[0]] for j = 0), so that k = j has probability c[j] - c[j-1]. */
  lemma InverseTransform(c: seq<real>, u: real, j: nat)
    requires NonDecreasing(c) && j < |c|
    ensures InverseCdfIndex(c, u) == j <==> (j == 0 || c[j - 1] < u) && u <= c[j]
  {
    var k := InverseCdfIndex(c, u);
    if (j == 0 || c[j - 1] < u) && u <= c[j] {
      forall i | 0 <= i < j
        ensures c[i] < u
      {
        assert c[i] <= c[j - 1];
      }
      InverseCdfIndexUnique(c, u, j);
    }
  }

  /** A draw below 1 never runs past a row whose last entry is 1.0: the number of working components
      is at most |c| - 1, that is at most W_i for a row built from a link's PMF. */
  lemma InverseCdfIndexBelowLast(c: seq<real>, u: real)
    requires |c| > 0 && c[|c| - 1] == 1.0 && u < 1.0
    ensures InverseCdfIndex(c, u) < |c|
  {
  }

  /** A draw of 0.0 (which `Math.random()` can return) stops at k = 0 for any row whose first entry is
      non-negative, even when that entry is 0, that is, even when no component working has probability 0. */
  lemma ZeroDraw(c: seq<real>)
    requires |c| > 0 && c[0] >= 0.0
    ensures InverseCdfIndex(c, 0.0) == 0
  {
  }

  /** The capacity of a link with k working components of capacity c each. */
  function Capacity(k: nat, c: real): real
  {
    k as real * c
  }

  /** The state vector the source draws from one vector of uniforms: entry i is k C_i, where k is the
      scan's index for draw[i] in row cdf[i]. */
  function SampledState(net: MFN, cdf: seq<seq<real>>, draw: seq<real>): (ssv: seq<real>)
    requires |net.C| == net.m && |cdf| >= net.m && |draw| == net.m
    ensures |ssv| == net.m
  {
    seq(net.m, i requires 0 <= i < net.m => Capacity(InverseCdfIndex(cdf[i], draw[i]), net.C[i]))
  }

  /** The `while` scan of `randomSSV`: the first index k of c with u <= c[k], or |c|. */
  method Scan(c: seq<real>, u: real) returns (k: nat)
    ensures k == InverseCdfIndex(c, u)
  {
    k := 0;
    while k < |c| && c[k] < u
      invariant 0 <= k <= |c|
      invariant forall j :: 0 <= j < k ==> c[j] < u
    {
      k := k + 1;
    }
    InverseCdfIndexUnique(c, u, k);
  }

  /** The inner loops of `randomSSV` for one state vector n. */
  method SampleState(net: MFN, cdf: seq<seq<real>>, draw: seq<real>) returns (ssv: seq<real>)
    requires |net.C| == net.m && |cdf| >= net.m && |draw| == net.m
    ensures ssv == SampledState(net, cdf, draw)
  {
    var row := new real[net.m];
    for i := 0 to net.m
      invariant forall j :: 0 <= j < i ==> row[j] == Capacity(InverseCdfIndex(cdf[j], draw[j]), net.C[j])
    {
      var k := Scan(cdf[i], draw[i]);
      row[i] := k as real * net.C[i];
      assert row[i] == Capacity(k, net.C[i]);
    }
    ssv := row[..];
    assert forall j :: 0 <= j < net.m ==> ssv[j] == SampledState(net, cdf, draw)[j];
  }

  /** `randomSSV(N, arCDF)`: N state vectors of m capacities, vector n drawn from the n-th vector of
      uniforms. */
  method RandomSSV(net: MFN, N: nat, cdf: seq<seq<real>>, draws: seq<seq<real>>) returns (ssvs: seq<seq<real>>)
    requires |net.C| == net.m && |cdf| >= net.m
    requires |draws| == N && forall n :: 0 <= n < N ==> |draws[n]| == net.m
    ensures |ssvs| == N
    ensures forall n :: 0 <= n < N ==> ssvs[n] == SampledState(net, cdf, draws[n])
  {
    ssvs := [];
    for n := 0 to N
      invariant |ssvs| == n
      invariant forall j :: 0 <= j < n ==> ssvs[j] == SampledState(net, cdf, draws[j])
    {
      var ssv := SampleState(net, cdf, draws[n]);
      ssvs := ssvs + [ssv];
    }
  }

  /** With a draw below 1 and a CDF row ending in 1.0, the sampled capacity of link i is k C_i with k at
      most the row length minus 1, that is k <= W_i for a row of W_i + 1 entries. */
  lemma SampledCapacityLevel(net: MFN, cdf: seq<seq<real>>, draw: seq<real>, i: nat)
    requires |net.C| == net.m && |cdf| >= net.m && |draw| == net.m && i < net.m
    requires |cdf[i]| > 0 && cdf[i][|cdf[i]| - 1] == 1.0 && draw[i] < 1.0
    ensures var k := InverseCdfIndex(cdf[i], draw[i]);
            k < |cdf[i]| && SampledState(net, cdf, draw)[i] == Capacity(k, net.C[i])
  {
    InverseCdfIndexBelowLast(cdf[i], draw[i]);
  }
}
