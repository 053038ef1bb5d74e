/** The `MFN` object of the source: the parameter vectors of a multi-state flow network with m links,
    checked when the object is built, the correlation factor beta of each link, and the minimal paths. */
module Network {
  import opened Wrappers
  import opened Numeric

  /** Link i has W[i] identical components of capacity C[i], lead time L[i], component reliability R[i]
      and fault correlation rho[i]; beta[i] is derived from R[i] and rho[i]. MPs is the list of minimal
      paths, each a sequence of link indices. Nothing in the engine changes these fields once built. */
  datatype MFN = MFN(m: nat, W: seq<int>, C: seq<real>, L: seq<int>, R: seq<real>, rho: seq<real>,
                     beta: seq<real>, MPs: seq<seq<int>>)
  {
    /** What a successfully constructed network satisfies. */
    predicate Valid()
    {
      Admissible(m, W, C, L, R, rho) && |beta| == m &&
      forall i :: 0 <= i < m ==> R[i] > 0.0 && beta[i] == Beta(R[i], rho[i])
    }
  }

  predicate SameLength(m: int, W: seq<int>, C: seq<real>, L: seq<int>, R: seq<real>, rho: seq<real>)
  {
    |W| == m && |C| == m && |L| == m && |R| == m && |rho| == m
  }

  predicate InUnitRange(R: seq<real>, rho: seq<real>)
    requires |R| == |rho|
  {
    forall i :: 0 <= i < |R| ==> 0.0 <= R[i] <= 1.0 && 0.0 <= rho[i] <= 1.0
  }

  /** The parameters the constructor accepts. */
  predicate Admissible(m: int, W: seq<int>, C: seq<real>, L: seq<int>, R: seq<real>, rho: seq<real>)
  {
    SameLength(m, W, C, L, R, rho) && InUnitRange(R, rho)
  }

  /** beta = 1 + rho (1 - R) / R. For R in (0, 1] and rho in [0, 1], R beta = R + rho (1 - R) is again
      a probability, and beta is at least 1. */
  function Beta(r: real, rho: real): (b: real)
    requires r > 0.0
    ensures r * b == r + rho * (1.0 - r)
    ensures r <= 1.0 && 0.0 <= rho ==> b >= 1.0
    ensures r <= 1.0 && 0.0 <= rho <= 1.0 ==> 0.0 < r * b <= 1.0
  {
    BetaFacts(r, rho, rho * (1.0 - r) / r);
    1.0 + rho * (1.0 - r) / r
  }

  lemma BetaFacts(r: real, rho: real, y: real)
    requires r > 0.0 && y == rho * (1.0 - r) / r
    ensures r * (1.0 + y) == r + rho * (1.0 - r)
    ensures r <= 1.0 && 0.0 <= rho ==> 1.0 + y >= 1.0
    ensures r <= 1.0 && 0.0 <= rho <= 1.0 ==> 0.0 < r * (1.0 + y) <= 1.0
  {
    var x := rho * (1.0 - r);
    QuotientTimes(x, r, y);
    if r <= 1.0 && 0.0 <= rho {
      MulMonotone(0.0, rho, 1.0 - r);
      QuotientNonNegative(x, r, y);
      if rho <= 1.0 {
        MulMonotone(rho, 1.0, 1.0 - r);
      }
    }
  }

  lemma QuotientTimes(x: real, r: real, y: real)
    requires r > 0.0 && y == x / r
    ensures r * (1.0 + y) == r + x
  {
    assert r * y == x;
  }

  lemma QuotientNonNegative(x: real, r: real, y: real)
    requires r > 0.0 && y == x / r && 0.0 <= x
    ensures 0.0 <= y
  {
  }

  /** The constructor `MFN(m, W, C, L, R, rho)`. It rejects vectors whose length is not m, then any R[i]
      or rho[i] outside [0, 1]; otherwise it keeps the vectors, fills beta and starts with no paths.
      An R[i] of 0 passes the checks and is then divided by, so it is excluded here. */
  method NewMFN(m: int, W: seq<int>, C: seq<real>, L: seq<int>, R: seq<real>, rho: seq<real>)
    returns (r: Result<MFN>)
    requires Admissible(m, W, C, L, R, rho) ==> forall i :: 0 <= i < m ==> R[i] != 0.0
    ensures !SameLength(m, W, C, L, R, rho) ==> r == Failure(IncorrectLength)
    ensures SameLength(m, W, C, L, R, rho) && !InUnitRange(R, rho) ==> r == Failure(OutOfUnitRange)
    ensures Admissible(m, W, C, L, R, rho) ==>
              r.Success? && r.value.Valid() && r.value == MFN(m, W, C, L, R, rho, r.value.beta, [])
  {
    if |W| != m || |C| != m || |L| != m || |R| != m || |rho| != m {
      return Failure(IncorrectLength);
    }
    for i := 0 to m
      invariant forall j :: 0 <= j < i ==> 0.0 <= R[j] <= 1.0 && 0.0 <= rho[j] <= 1.0
    {
      if R[i] < 0.0 || R[i] > 1.0 || rho[i] < 0.0 || rho[i] > 1.0 {
        return Failure(OutOfUnitRange);
      }
    }
    var beta := new real[m];
    for i := 0 to m
      invariant forall j :: 0 <= j < i ==> beta[j] == Beta(R[j], rho[j])
    {
      beta[i] := 1.0 + (rho[i] * (1.0 - R[i])) / R[i];
    }
    return Success(MFN(m, W, C, L, R, rho, beta[..], []));
  }
}
