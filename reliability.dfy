/** The Monte Carlo estimate of the TT agent: a state vector is a success when its fastest minimal path
    delivers d units of flow within time T, and the reliability is the fraction of successes. */
module Reliability {
  import opened Wrappers
  import opened Numeric
  import opened Network
  import opened Paths

  /** Every minimal path names links among the first n. */
  predicate PathsInRange(MPs: seq<seq<int>>, n: int)
  {
    forall p :: 0 <= p < |MPs| ==> InRange(MPs[p], n)
  }

  /** The shortest transmission time over the minimal paths, folded from +inf the way the source keeps a
      path's time when it is strictly below the current minimum. */
  function StateTime(L: seq<int>, ssv: seq<real>, MPs: seq<seq<int>>, d: real): (r: Time)
    requires PathsInRange(MPs, |L|) && |ssv| == |L|
    ensures forall p :: 0 <= p < |MPs| ==> AtMost(r, TransmissionTime(L, ssv, MPs[p], d))
    ensures r == Inf || exists p :: 0 <= p < |MPs| && r == TransmissionTime(L, ssv, MPs[p], d)
  {
    if MPs == [] then Inf
    else
      var minTime := StateTime(L, ssv, MPs[..|MPs| - 1], d);
      var time := TransmissionTime(L, ssv, MPs[|MPs| - 1], d);
      if Before(time, minTime) then time else minTime
  }

  /** `minTime <= T`, for a finite T. Only a network with at least one minimal path can succeed. */
  predicate IsSuccess(L: seq<int>, ssv: seq<real>, MPs: seq<seq<int>>, d: real, T: real)
    requires PathsInRange(MPs, |L|) && |ssv| == |L|
    ensures IsSuccess(L, ssv, MPs, d, T) ==> MPs != []
  {
    AtMost(StateTime(L, ssv, MPs, d), Fin(T))
  }

  /** A state is a success exactly when some minimal path alone delivers within T. */
  lemma SuccessIff(L: seq<int>, ssv: seq<real>, MPs: seq<seq<int>>, d: real, T: real)
    requires PathsInRange(MPs, |L|) && |ssv| == |L|
    ensures IsSuccess(L, ssv, MPs, d, T)
            <==> (exists p :: 0 <= p < |MPs| && AtMost(TransmissionTime(L, ssv, MPs[p], d), Fin(T)))
  {
    var r := StateTime(L, ssv, MPs, d);
    if p :| 0 <= p < |MPs| && AtMost(TransmissionTime(L, ssv, MPs[p], d), Fin(T)) {
      AtMostTransitive(r, TransmissionTime(L, ssv, MPs[p], d), Fin(T));
    }
  }

  /** A state in which every minimal path has a link of capacity at most 0 is never a success; with no
      minimal paths at all no state is. */
  lemma AllPathsCut(L: seq<int>, ssv: seq<real>, MPs: seq<seq<int>>, d: real, T: real)
    requires PathsInRange(MPs, |L|) && |ssv| == |L|
    requires forall p :: 0 <= p < |MPs| ==> exists j :: 0 <= j < |MPs[p]| && ssv[MPs[p][j]] <= 0.0
    ensures !IsSuccess(L, ssv, MPs, d, T)
  {
    forall p | 0 <= p < |MPs|
      ensures TransmissionTime(L, ssv, MPs[p], d) == Inf
    {
      CutIff(L, ssv, MPs[p], d);
    }
  }

  /** Success is monotone in the state: for d >= 0, raising every link's capacity keeps a success a
      success. */
  lemma SuccessMonotone(L: seq<int>, ssv1: seq<real>, ssv2: seq<real>, MPs: seq<seq<int>>, d: real, T: real)
    requires PathsInRange(MPs, |L|) && |ssv1| == |L| && |ssv2| == |L| && 0.0 <= d
    requires forall i :: 0 <= i < |L| ==> ssv1[i] <= ssv2[i]
    requires IsSuccess(L, ssv1, MPs, d, T)
    ensures IsSuccess(L, ssv2, MPs, d, T)
  {
    SuccessIff(L, ssv1, MPs, d, T);
    var p :| 0 <= p < |MPs| && AtMost(TransmissionTime(L, ssv1, MPs[p], d), Fin(T));
    assert InRange(MPs[p], |L|);
    TransmissionTimeMonotone(L, ssv1, ssv2, MPs[p], d);
    AtMostTransitive(TransmissionTime(L, ssv2, MPs[p], d), TransmissionTime(L, ssv1, MPs[p], d), Fin(T));
    SuccessIff(L, ssv2, MPs, d, T);
  }

  /** Every state drawn has one capacity per link. */
  predicate StatesFit(ssvs: seq<seq<real>>, m: int)
  {
    forall n :: 0 <= n < |ssvs| ==> |ssvs[n]| == m
  }

  /** The number of successes among the states, counted from the first. */
  function Successes(L: seq<int>, ssvs: seq<seq<real>>, MPs: seq<seq<int>>, d: real, T: real): (c: nat)
    requires PathsInRange(MPs, |L|) && StatesFit(ssvs, |L|)
    ensures c <= |ssvs|
  {
    if ssvs == [] then 0
    else
      var n := |ssvs| - 1;
      Successes(L, ssvs[..n], MPs, d, T) + if IsSuccess(L, ssvs[n], MPs, d, T) then 1 else 0
  }

  /** A larger time limit never counts fewer successes. */
  lemma {:induction false} SuccessesMonotoneInT(L: seq<int>, ssvs: seq<seq<real>>, MPs: seq<seq<int>>, d: real, T1: real, T2: real)
    requires PathsInRange(MPs, |L|) && StatesFit(ssvs, |L|) && T1 <= T2
    ensures Successes(L, ssvs, MPs, d, T1) <= Successes(L, ssvs, MPs, d, T2)
  {
    if ssvs != [] {
      var n := |ssvs| - 1;
      SuccessesMonotoneInT(L, ssvs[..n], MPs, d, T1, T2);
      if IsSuccess(L, ssvs[n], MPs, d, T1) {
        AtMostTransitive(StateTime(L, ssvs[n], MPs, d), Fin(T1), Fin(T2));
      }
    }
  }

  /** The count over two batches of states is the sum of their counts, so it does not depend on how the
      states are split between runs. */
  lemma {:induction false} SuccessesAppend(L: seq<int>, s1: seq<seq<real>>, s2: seq<seq<real>>, MPs: seq<seq<int>>, d: real, T: real)
    requires PathsInRange(MPs, |L|) && StatesFit(s1, |L|) && StatesFit(s2, |L|)
    ensures StatesFit(s1 + s2, |L|)
    ensures Successes(L, s1 + s2, MPs, d, T) == Successes(L, s1, MPs, d, T) + Successes(L, s2, MPs, d, T)
  {
    assert StatesFit(s1 + s2, |L|) by {
      forall n | 0 <= n < |s1 + s2|
        ensures |(s1 + s2)[n]| == |L|
      {
        if n >= |s1| {
          assert (s1 + s2)[n] == s2[n - |s1|];
        }
      }
    }
    if s2 == [] {
      assert s1 + s2 == s1;
    } else {
      var n := |s2| - 1;
      assert (s1 + s2)[..|s1 + s2| - 1] == s1 + s2[..n];
      assert (s1 + s2)[|s1 + s2| - 1] == s2[n];
      SuccessesAppend(L, s1, s2[..n], MPs, d, T);
    }
  }

  /** One more path in the fold: the prefix of p + 1 paths keeps the new path's time when it is strictly
      below the minimum over the first p. */
  lemma StateTimeStep(L: seq<int>, ssv: seq<real>, MPs: seq<seq<int>>, d: real, p: nat)
    requires PathsInRange(MPs, |L|) && |ssv| == |L| && p < |MPs|
    ensures PathsInRange(MPs[..p], |L|) && PathsInRange(MPs[..p + 1], |L|) && InRange(MPs[p], |L|)
    ensures StateTime(L, ssv, MPs[..p + 1], d)
            == var time, minTime := TransmissionTime(L, ssv, MPs[p], d), StateTime(L, ssv, MPs[..p], d);
               if Before(time, minTime) then time else minTime
  {
    assert forall q :: 0 <= q < p + 1 ==> MPs[..p + 1][q] == MPs[q];
    assert MPs[..p + 1][..p] == MPs[..p];
  }

  /** The inner loop of the TT agent: the shortest transmission time of one state over the paths. */
  method MinTime(net: MFN, ssv: seq<real>, d: real) returns (minTime: Time)
    requires PathsInRange(net.MPs, |net.L|) && |ssv| == |net.L|
    ensures minTime == StateTime(net.L, ssv, net.MPs, d)
  {
    minTime := Inf;
    for p := 0 to |net.MPs|
      invariant PathsInRange(net.MPs[..p], |net.L|)
      invariant minTime == StateTime(net.L, ssv, net.MPs[..p], d)
    {
      StateTimeStep(net.L, ssv, net.MPs, d, p);
      var time := CalculateTransmissionTime(net, net.MPs[p], d, ssv);
      if Before(time, minTime) {
        minTime := time;
      }
    }
    assert net.MPs[..|net.MPs|] == net.MPs;
  }

  /** The outer loop of the TT agent: the number of states that are successes. The source's `int`
      counter cannot wrap, since it never exceeds the number of states, which a Java array keeps at most
      Integer.MAX_VALUE. */
  method CountSuccesses(net: MFN, ssvs: seq<seq<real>>, d: real, T: real) returns (successCount: int)
    requires PathsInRange(net.MPs, |net.L|) && StatesFit(ssvs, |net.L|)
    requires |ssvs| <= IntMax
    ensures successCount == Successes(net.L, ssvs, net.MPs, d, T)
    ensures 0 <= successCount <= |ssvs| <= IntMax
  {
    successCount := 0;
    for n := 0 to |ssvs|
      invariant StatesFit(ssvs[..n], |net.L|)
      invariant successCount == Successes(net.L, ssvs[..n], net.MPs, d, T)
    {
      assert ssvs[..n + 1][..n] == ssvs[..n];
      assert ssvs[..n + 1][n] == ssvs[n];
      var minTime := MinTime(net, ssvs[n], d);
      if AtMost(minTime, Fin(T)) {
        successCount := successCount + 1;
      }
    }
    assert ssvs[..|ssvs|] == ssvs;
  }

  /** `(double) successCount / N`. With no states the source divides 0 by 0 and reports NaN; the model
      reports NoStates instead. Otherwise the estimate is a probability. */
  method EstimateReliability(net: MFN, ssvs: seq<seq<real>>, d: real, T: real) returns (reliability: Result<real>)
    requires PathsInRange(net.MPs, |net.L|) && StatesFit(ssvs, |net.L|)
    requires |ssvs| <= IntMax
    ensures ssvs == [] <==> reliability.Failure?
    ensures ssvs == [] ==> reliability.error == NoStates
    ensures ssvs != [] ==>
              reliability.value == Successes(net.L, ssvs, net.MPs, d, T) as real / |ssvs| as real
              && 0.0 <= reliability.value <= 1.0
  {
    var successCount := CountSuccesses(net, ssvs, d, T);
    var N := |ssvs|;
    if N == 0 {
      return Failure(NoStates);
    }
    UnitQuotient(successCount, N);
    return Success(successCount as real / N as real);
  }

  lemma UnitQuotient(c: nat, n: nat)
    requires 0 < n && c <= n
    ensures 0.0 <= c as real / n as real <= 1.0
  {
    assert c as real / n as real * n as real == c as real;
  }
}
