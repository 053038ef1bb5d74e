# Monte Carlo reliability of a multi-state flow network, in Dafny

This project models the core of a Java estimator for the reliability of a multi-state flow network
(MFN). The network has m links. Link i is made of W_i identical components, each of capacity C_i and
reliability R_i. The link also has a lead time L_i and a fault-correlation factor rho_i. The estimator
asks for the probability that d units of flow can be sent through the network within time T. It
answers by Monte Carlo simulation:

1. validate the parameters and derive each link's correlation factor beta_i (module `Network`);
2. compute each link's probability mass function (PMF) over the number of working components, using
   factorials and binomial coefficients (`Combinatorial`, `Distribution`);
3. turn each PMF into a cumulative distribution function (CDF) clamped to 1 (`Distribution`);
4. choose the number of samples N from Fishman's worst-case bound. This uses a bisection that
   inverts the normal CDF (`SampleSize`);
5. draw N system state vectors by the inverse-CDF method (`StateSampler`);
6. for each state, compute every minimal path's transmission time: its lead time plus
   ceil(d / path capacity), or +inf when the path is cut (`Paths`);
7. count the states whose fastest path arrives within T, and divide by N (`Reliability`).

Modelling choices:

- Every Java `double` is an exact `real`, and `Double.POSITIVE_INFINITY` is the `Inf` case of
  `Paths.Time`.
- Java `int` addition in the lead-time sum wraps around modulo 2^32 (`Numeric.Wrap32`). The `(int)`
  cast of the sample size saturates (`SampleSize.IntCast`).
- The `MFN` object is an immutable datatype. Nothing in the core changes its fields after construction.
- The loops of the source are methods with loop invariants. Each one is proved equal to a
  specification function (`FillPMFRow` and `PMFRow`, `Scan` and `InverseCdfIndex`, `MinTime` and
  `StateTime`, ...). The properties are proved about those functions.

On exact reals the model proves several facts about the estimator:

- Every PMF row of a valid network is a probability distribution.
- Entries 1..W of a row add up to (1/beta)(1 - (1 - R beta)^W), by the binomial theorem. So entry 0 equals 1 - (1/beta)(1 - (1 - R beta)^W), the closed form the source states in a comment.
- R beta always lies in (0, 1] for a constructed network (with R > 0). So the case of a "non-probability
  term" can never arise from parameters the constructor accepts.

Where the code and its documented design differ, the model follows the code:

- The constructor does not reject R_i = 0, and then divides by it. The model adds no rejection either; it excludes R_i = 0 with a precondition of `NewMFN` (see "## Left out").
- Nothing checks that R_i beta_i lies in [0, 1].
- `getWorstCaseSampleSize` validates neither epsilon nor delta. delta is caught only by `normalICDF`, which fails unless 0 < delta < 2, and epsilon = 0 divides by zero (excluded by a precondition, see "## Left out"). The range check on epsilon and delta, both in (0, 1), happens only in `SSVGenerator` (SSVGenerator.java:30). That agent prints an error and deletes itself instead of throwing, and then computes N with the same formula; it is not part of this model.

## Model

| member | source | states |
|---|---|---|
| Network.Beta | src/main/java/org/example/MFN.java:38-42 | beta = 1 + rho (1 - R) / R satisfies R beta = R + rho (1 - R); for R in (0, 1] and rho in [0, 1], beta >= 1 and R beta is in (0, 1] |
| Network.NewMFN | src/main/java/org/example/MFN.java:19-43 | fails with IncorrectLength when any of W, C, L, R, rho has length other than m, else with OutOfUnitRange when some R_i or rho_i is outside [0, 1]; otherwise returns the network holding the given vectors, beta_i = Beta(R_i, rho_i) for every link, and no paths |
| Combinatorial.Fact | src/main/java/org/example/MFN.java:47-54 | n! as a product over exact reals, always positive, so every binomial quotient is defined |
| Combinatorial.Factorial | src/main/java/org/example/MFN.java:47-54 | the loop returns n! for n >= 0 and 1 for a negative n |
| Combinatorial.Binomial | src/main/java/org/example/MFN.java:56-59 | the coefficient is never negative, and it is positive exactly when 0 <= k <= n |
| Combinatorial.BinomialEnds | src/main/java/org/example/MFN.java:56-59 | C(n, 0) = C(n, n) = 1 |
| Combinatorial.BinomialSymmetric | src/main/java/org/example/MFN.java:56-59 | C(n, k) = C(n, n - k) |
| Combinatorial.BinomialIsChoose | src/main/java/org/example/MFN.java:56-59 | the factorial quotient equals Pascal's-triangle C(n, k) for every n and k |
| Combinatorial.Pascal | src/main/java/org/example/MFN.java:56-59 | Pascal's rule C(n, k) = C(n-1, k-1) + C(n-1, k) holds for the factorial quotient |
| Combinatorial.BinomialTheorem | src/main/java/org/example/MFN.java:98-105 | the terms C(n, k) p^k q^(n-k), k = 0..n, add up to (p + q)^n |
| Distribution.Term | src/main/java/org/example/MFN.java:99-103 | entry k of the PMF, (1/b) C(w, k) (r b)^k (1 - r b)^(w-k); it is non-negative whenever b > 0 and r b is a probability |
| Distribution.PMFRow | src/main/java/org/example/MFN.java:97-108 | the row for a link of w components has w + 1 entries, one per number 0..w of working components (its entries are described by the lemmas below) |
| Distribution.FillPMFRow | src/main/java/org/example/MFN.java:86-108 | the loop for one link returns PMFRow: entries 1..w are the terms (1/b) C(w, k) (r b)^k (1 - r b)^(w-k), entry 0 is 1 minus their sum |
| Distribution.PMFRowSumsToOne | src/main/java/org/example/MFN.java:97-108 | every row adds up to exactly 1, whatever r and b are |
| Distribution.PMFZeroClosedForm | src/main/java/org/example/MFN.java:92-108 | the terms add up to (1/b)(1 - (1 - r b)^w), so entry 0 equals 1 - (1/b)(1 - (1 - r b)^w) |
| Distribution.PMFRowIsDistribution | src/main/java/org/example/MFN.java:97-108 | for b >= 1 and r b in [0, 1], every entry is non-negative and the row adds up to 1 |
| Distribution.CalculatePMF | src/main/java/org/example/MFN.java:82-111 | returns m rows; row i is PMFRow(W_i, R_i, beta_i), has W_i + 1 entries and is a probability distribution |
| Distribution.CDFRow | src/main/java/org/example/MFN.java:115-122 | a CDF row has the PMF row's length, entries at most 1, and last entry exactly 1.0 |
| Distribution.CDFRowNonDecreasing | src/main/java/org/example/MFN.java:117-122 | over non-negative PMF entries the CDF row is non-decreasing |
| Distribution.CDFRowOfDistribution | src/main/java/org/example/MFN.java:117-122 | for a distribution the clamp and the pin change nothing: entry k is the prefix sum up to k, entry 0 is p[0], and consecutive entries differ by p[k] |
| Distribution.CDF | src/main/java/org/example/MFN.java:113-125 | returns one row per PMF row, each the running sum clamped to 1 with the last entry pinned to 1.0 |
| SampleSize.Bisection | src/main/java/org/example/MFN.java:156-173 | the bisection as a recursive definition: halve a bracket wider than 1e-10, stop at a midpoint whose CDF value is within 1e-10 of u, keep the half on u's side; its answer never leaves the bracket it starts from |
| SampleSize.NormalICDF | src/main/java/org/example/MFN.java:153-174 | fails exactly when u <= 0 or u >= 1; otherwise the result is the value `Bisection` settles on from [-10, 10], the loop being proved equal to that recursive definition; it lies in [-10, 10] inside the final bracket, each end of which is the initial end or a point where the CDF was seen beyond the tolerance on its side; and the result is within 1e-10 of u in CDF value, or the bracket has width at most 1e-10 and the result is one of its ends |
| SampleSize.BracketLocatesQuantile | src/main/java/org/example/MFN.java:161-171 | for a non-decreasing CDF, every point whose CDF value is within the tolerance of u lies strictly inside the bracket, except beyond an initial end |
| SampleSize.IntCast | src/main/java/org/example/MFN.java:181 | the `(int)` cast keeps values in the int range, leaves values already in it unchanged, saturates to Integer.MAX_VALUE above it and to Integer.MIN_VALUE below it |
| SampleSize.CeilSquare | src/main/java/org/example/MFN.java:181 | (int) ceil(v^2) is in [0, Integer.MAX_VALUE], at least v^2 unless saturated, and less than v^2 + 1 |
| SampleSize.SampleSizeFor | src/main/java/org/example/MFN.java:178-181 | the Fishman bound is in [0, Integer.MAX_VALUE] |
| SampleSize.SampleSizeNonIncreasingInEpsilon | src/main/java/org/example/MFN.java:177-182 | for a fixed quantile, a larger epsilon never gives a larger sample size |
| SampleSize.SampleSizeMonotoneInQuantile | src/main/java/org/example/MFN.java:177-182 | a quantile larger in absolute value never gives a smaller sample size |
| SampleSize.GetWorstCaseSampleSize | src/main/java/org/example/MFN.java:177-182 | fails exactly when delta <= 0 or delta >= 2 (u = 1 - delta/2 outside (0, 1)); otherwise z is the bisection's answer for u = 1 - delta/2 (the value `Bisection` settles on, with NormalICDF's bracket and tolerance guarantee for its final bracket), and the result is the Fishman bound for that z, hence at most the bound for z = 10 |
| SampleSize.SampleSizeExample | src/main/java/org/example/MFN.java:177-182 | epsilon = 0.05 with z = 1.959964 gives 385 samples |
| StateSampler.InverseCdfIndex | src/main/java/org/example/MFN.java:193-198 | the scan index k is at most the row length, every entry before k is below u, and entry k (if any) is at least u |
| StateSampler.InverseCdfIndexUnique | src/main/java/org/example/MFN.java:193-198 | those three properties determine the index |
| StateSampler.InverseTransform | src/main/java/org/example/MFN.java:193-198 | over a non-decreasing row, the draw gives k = j exactly when u lies in (c[j-1], c[j]] (or (-inf, c[0]] for j = 0) |
| StateSampler.InverseCdfIndexBelowLast | src/main/java/org/example/MFN.java:193-198 | a draw below 1 never runs past a row ending in 1.0 |
| StateSampler.ZeroDraw | src/main/java/org/example/MFN.java:191-198 | a draw of exactly 0.0 stops at k = 0 on a row whose first entry is non-negative, also when that entry is 0 |
| StateSampler.SampledState | src/main/java/org/example/MFN.java:190-203 | a sampled state has one capacity per link |
| StateSampler.Scan | src/main/java/org/example/MFN.java:193-198 | the `while` scan returns InverseCdfIndex |
| StateSampler.SampleState | src/main/java/org/example/MFN.java:190-203 | entry i of the state is k_i C_i, with k_i the scan index of draw i in CDF row i |
| StateSampler.RandomSSV | src/main/java/org/example/MFN.java:185-206 | returns N states, state n drawn from the n-th vector of uniforms |
| StateSampler.SampledCapacityLevel | src/main/java/org/example/MFN.java:193-202 | with a draw below 1 and a row ending in 1.0, link i's capacity is k C_i with k at most the row length minus 1, that is k <= W_i |
| Numeric.Wrap32 | src/main/java/org/example/MFN.java:224 | Java's wrapping `int` addition lands in [Integer.MIN_VALUE, Integer.MAX_VALUE] and leaves a sum already in that range unchanged |
| Numeric.Wrap32Add | src/main/java/org/example/MFN.java:221-227 | wrapping to 32 bits after every addition gives the same int as wrapping the exact sum once |
| Numeric.Ceil | src/main/java/org/example/MFN.java:217 | `Math.ceil(x)` is the integer c with x <= c < x + 1 |
| Paths.LeadSum | src/main/java/org/example/MFN.java:221-227 | the exact sum of the lead times along the path; non-negative when the lead times on it are |
| Paths.LeadSumAppend | src/main/java/org/example/MFN.java:221-227 | the lead sum of a concatenation is the sum of the lead sums |
| Paths.LeadSumPermutation | src/main/java/org/example/MFN.java:221-227 | the lead sum does not depend on the order of the path's links |
| Paths.CalculatePathLeadTime | src/main/java/org/example/MFN.java:221-227 | returns the exact sum of L over the path wrapped to 32 bits, which is the exact sum when it fits in an int |
| Paths.PathCapacity | src/main/java/org/example/MFN.java:230-239 | the capacity is at most Double.MAX_VALUE and at most every link's capacity on the path, and it is Double.MAX_VALUE or some link's capacity |
| Paths.CalculatePathCapacity | src/main/java/org/example/MFN.java:230-239 | the loop returns PathCapacity |
| Paths.CutPath | src/main/java/org/example/MFN.java:230-239 | a non-empty path has capacity at most 0 exactly when one of its links does |
| Paths.PathCapacityMonotone | src/main/java/org/example/MFN.java:230-239 | raising link capacities never lowers the path capacity |
| Paths.TransmissionTime | src/main/java/org/example/MFN.java:211-218 | +inf for a path of capacity at most 0, otherwise the wrapped lead time plus ceil(d / capacity); for d >= 0 a finite time is never below the lead time |
| Paths.CalculateTransmissionTime | src/main/java/org/example/MFN.java:211-218 | returns TransmissionTime: +inf when the capacity is at most 0, else the lead time plus ceil(d / capacity) |
| Paths.CutIff | src/main/java/org/example/MFN.java:211-218 | the time is +inf exactly when the path is non-empty and has a link of capacity at most 0 |
| Paths.FiniteTimeBounds | src/main/java/org/example/MFN.java:211-218 | a finite time exceeds the lead time by an amount in [d / cp, d / cp + 1) with cp > 0, so by at least 1 when d > 0 |
| Paths.TransmissionTimeMonotone | src/main/java/org/example/MFN.java:211-218 | for d >= 0, more capacity on every link of the path never makes it slower |
| Paths.Before | src/main/java/org/example/TT.java:90 | Java's `<` on a double that is finite or +inf: irreflexive, and +inf is below nothing |
| Paths.AtMost | src/main/java/org/example/TT.java:96 | Java's `<=` on such doubles is exactly the negation of the reverse `<`, so any two times compare |
| Reliability.StateTime | src/main/java/org/example/TT.java:84-93 | the state's time is at most every path's time, and it is +inf or some path's time |
| Reliability.MinTime | src/main/java/org/example/TT.java:84-93 | the inner loop returns StateTime |
| Reliability.IsSuccess | src/main/java/org/example/TT.java:96-98 | a state succeeds when its shortest time is at most T; no state succeeds in a network without minimal paths |
| Reliability.SuccessIff | src/main/java/org/example/TT.java:84-98 | a state is a success exactly when some minimal path's time is at most T |
| Reliability.AllPathsCut | src/main/java/org/example/TT.java:87-98 | a state in which every minimal path has a link of capacity at most 0 (or with no paths) is never a success |
| Reliability.SuccessMonotone | src/main/java/org/example/TT.java:82-98 | for d >= 0, a state with more capacity on every link keeps a success a success |
| Reliability.Successes | src/main/java/org/example/TT.java:78-99 | the number of successes is at most the number of states |
| Reliability.SuccessesMonotoneInT | src/main/java/org/example/TT.java:96-98 | raising T never lowers the count |
| Reliability.SuccessesAppend | src/main/java/org/example/TT.java:78-99 | the count over two batches of states is the sum of their counts |
| Reliability.CountSuccesses | src/main/java/org/example/TT.java:78-99 | the outer loop returns Successes, which lies in [0, N] |
| Reliability.EstimateReliability | src/main/java/org/example/TT.java:78-101 | for N > 0 the estimate is successCount / N and lies in [0, 1]; with N = 0 it reports NoStates |

## Left out

- `normalCDF` and `doubleFactorial` (MFN.java:127-151) use a power series with `Math.exp`, `Math.sqrt` and pi. The normal CDF is the parameter `phi` of `NormalICDF` and `GetWorstCaseSampleSize`.
- IEEE `double` behaviour is not modelled: rounding (whose drift the clamp in `CDF` absorbs), overflow of `factorial` to infinity for n > 170, NaN, and a double sum `lp + ceil(d / cp)` that exceeds the double range. Values are exact reals.
- `Math.random()` is not modelled. `RandomSSV` takes the draws it would have returned as a parameter, `draws[n][i]` for state n and link i. The model does not require them to lie in [0, 1); the lemmas that need that say so.
- `getMPs` (MFN.java:62-80) is file reading, so it is not modelled. The minimal paths are the `MPs` field of the network, and the reliability members require every stored index to name a link. The source stores the file's indices as read, with no shift from 1-based to 0-based.
- The JADE agent plumbing of TT.java is not modelled: argument parsing, registration, message receive and reply, and `saveSSVsToCSV`. Also left out are `SSVGenerator.java`, `SSVGeneratorGui.java` and `SimulationData.java`.
- Thrown exceptions are `Failure` results when the source throws deliberately. Array-index and negative-size crashes are preconditions:
  - path indices in range;
  - `W_i >= 0` for `CalculatePMF`;
  - non-empty PMF rows for `CDF`;
  - `|cdf| >= m` and draws of length m for `RandomSSV`.
- `NewMFN`: requires R_i != 0 for parameters the checks accept. The source divides by such an R_i and stores a non-finite beta.
- `CalculatePMF`: requires a valid network, and W_i >= 0 because a negative W_i makes the source throw.
- `GetWorstCaseSampleSize`: requires epsilon != 0. The source divides by 2 epsilon and casts the resulting infinity or NaN.
- `EstimateReliability`: for N = 0 the source divides 0 by 0 and reports NaN. The model reports `Failure(NoStates)` there.
- `CountSuccesses`: requires N <= Integer.MAX_VALUE, the largest length of a Java array. This is why the `int` counter never wraps.
- `IsSuccess`, `Successes` and the methods over them take a finite T and finite d; an infinite T or d is not modelled.
- `StateSampler.SampledState` and `RandomSSV` model the result as a sequence of sequences, not a Java `double[N][m]` array.
- `SampleSize.SampleSizeNonIncreasingInEpsilon` is stated for a fixed quantile. Monotonicity in delta would need a monotone `phi` and the bisection's output to be monotone in u, which the model does not prove.
