/** Formulas (3)-(5) of the engine: the lead time, capacity and transmission time of a minimal path in
    a given system state vector. A path is a sequence of link indices; ssv[i] is the capacity of link i. */
module Paths {
  import opened Numeric
  import opened Network

  /** A double that is either finite or `Double.POSITIVE_INFINITY`. */
  datatype Time = Inf | Fin(t: real)

  /** Java's `<` on such doubles: irreflexive, and +inf is below nothing. */
  predicate Before(a: Time, b: Time)
    ensures Before(a, b) ==> a != b && a.Fin?
  {
    match (a, b)
    case (Fin(x), Fin(y)) => x < y
    case (Fin(_), Inf) => true
    case (Inf, _) => false
  }

  /** Java's `<=` on such doubles, which never hold NaN: it is the negation of `>`, so any two times
      compare. */
  predicate AtMost(a: Time, b: Time)
    ensures AtMost(a, b) <==> !Before(b, a)
  {
    a == b || Before(a, b)
  }

  lemma AtMostTransitive(a: Time, b: Time, c: Time)
    requires AtMost(a, b) && AtMost(b, c)
    ensures AtMost(a, c)
  {
  }

  /** Every index of the path names a link among the first n. */
  predicate InRange(path: seq<int>, n: int)
  {
    forall j :: 0 <= j < |path| ==> 0 <= path[j] < n
  }

  /** The exact sum of L over the path's links, in path order. */
  function LeadSum(L: seq<int>, path: seq<int>): (s: int)
    requires InRange(path, |L|)
    ensures (forall j :: 0 <= j < |path| ==> 0 <= L[path[j]]) ==> 0 <= s
  {
    if path == [] then 0 else LeadSum(L, path[..|path| - 1]) + L[path[|path| - 1]]
  }

  lemma {:induction false} LeadSumAppend(L: seq<int>, p: seq<int>, q: seq<int>)
    requires InRange(p, |L|) && InRange(q, |L|)
    ensures InRange(p + q, |L|)
    ensures LeadSum(L, p + q) == LeadSum(L, p) + LeadSum(L, q)
  {
    assert InRange(p + q, |L|) by {
      forall j | 0 <= j < |p + q|
        ensures 0 <= (p + q)[j] < |L|
      {
        if j >= |p| {
          assert (p + q)[j] == q[j - |p|];
        }
      }
    }
    if q == [] {
      assert p + q == p;
    } else {
      var n := |q|;
      assert (p + q)[..|p + q| - 1] == p + q[..n - 1];
      LeadSumAppend(L, p, q[..n - 1]);
    }
  }

  lemma InRangeSlice(path: seq<int>, n: int, i: nat, j: nat)
    requires InRange(path, n) && i <= j <= |path|
    ensures InRange(path[i..j], n)
  {
    assert forall k :: 0 <= k < j - i ==> path[i..j][k] == path[i + k];
  }

  /** Taking link q[i] out of q lowers the lead sum by L[q[i]]. */
  lemma LeadSumRemove(L: seq<int>, q: seq<int>, i: nat)
    requires InRange(q, |L|) && i < |q|
    ensures InRange(q[..i] + q[i + 1..], |L|)
    ensures LeadSum(L, q) == LeadSum(L, q[..i] + q[i + 1..]) + L[q[i]]
  {
    var a, b := q[..i], q[i + 1..];
    assert q == a + [q[i]] + b;
    InRangeSlice(q, |L|, 0, i);
    InRangeSlice(q, |L|, i + 1, |q|);
    assert a == q[0..i];
    LeadSumAppend(L, a, [q[i]]);
    LeadSumAppend(L, a + [q[i]], b);
    LeadSumAppend(L, a, b);
  }

  /** Where the last link of p sits in q, when q holds the same links. */
  lemma FindLast(p: seq<int>, q: seq<int>) returns (i: nat)
    requires multiset(p) == multiset(q) && p != []
    ensures i < |q| && q[i] == p[|p| - 1]
  {
    var x := p[|p| - 1];
    assert x in q by {
      assert x in multiset(p);
    }
    i :| 0 <= i < |q| && q[i] == x;
  }

  lemma MultisetCancel(p: seq<int>, q: seq<int>, i: nat)
    requires multiset(p) == multiset(q) && p != [] && i < |q| && q[i] == p[|p| - 1]
    ensures multiset(p[..|p| - 1]) == multiset(q[..i] + q[i + 1..])
  {
    var x := q[i];
    assert p == p[..|p| - 1] + [x];
    assert q == q[..i] + [x] + q[i + 1..];
    assert multiset(p[..|p| - 1]) == multiset(p) - multiset{x};
    assert multiset(q[..i] + q[i + 1..]) == multiset(q) - multiset{x};
  }

  /** The lead time of a path does not depend on the order of its links. */
  lemma {:induction false} LeadSumPermutation(L: seq<int>, p: seq<int>, q: seq<int>)
    requires InRange(p, |L|) && InRange(q, |L|) && multiset(p) == multiset(q)
    ensures LeadSum(L, p) == LeadSum(L, q)
    decreases |p|
  {
    if p != [] {
      var i := FindLast(p, q);
      MultisetCancel(p, q, i);
      LeadSumRemove(L, q, i);
      InRangeSlice(p, |L|, 0, |p| - 1);
      assert p[0..|p| - 1] == p[..|p| - 1];
      LeadSumPermutation(L, p[..|p| - 1], q[..i] + q[i + 1..]);
    }
  }

  /** `calculatePathLeadTime(path)`: the int sum of L over the path, with Java's 32-bit wrap-around,
      which is the exact sum whenever that fits in an int. */
  method CalculatePathLeadTime(net: MFN, path: seq<int>) returns (sumL: int)
    requires InRange(path, |net.L|)
    ensures sumL == Wrap32(LeadSum(net.L, path))
    ensures IntMin <= LeadSum(net.L, path) <= IntMax ==> sumL == LeadSum(net.L, path)
  {
    sumL := 0;
    for j := 0 to |path|
      invariant InRange(path[..j], |net.L|)
      invariant sumL == Wrap32(LeadSum(net.L, path[..j]))
    {
      assert path[..j + 1][..j] == path[..j];
      Wrap32Add(LeadSum(net.L, path[..j]), net.L[path[j]]);
      sumL := Wrap32(sumL + net.L[path[j]]);
    }
    assert path[..|path|] == path;
  }

  /** The minimum of ssv over the path, folded from `Double.MAX_VALUE` the way the source's loop takes
      a link's capacity when it is below the current minimum. */
  function PathCapacity(ssv: seq<real>, path: seq<int>): (r: real)
    requires InRange(path, |ssv|)
    ensures r <= DoubleMax
    ensures forall j :: 0 <= j < |path| ==> r <= ssv[path[j]]
    ensures r == DoubleMax || exists j :: 0 <= j < |path| && r == ssv[path[j]]
  {
    if path == [] then DoubleMax
    else
      var minCap := PathCapacity(ssv, path[..|path| - 1]);
      var cap := ssv[path[|path| - 1]];
      if cap < minCap then cap else minCap
  }

  /** `calculatePathCapacity(path, ssv)` */
  method CalculatePathCapacity(path: seq<int>, ssv: seq<real>) returns (minCap: real)
    requires InRange(path, |ssv|)
    ensures minCap == PathCapacity(ssv, path)
  {
    minCap := DoubleMax;
    for j := 0 to |path|
      invariant minCap == PathCapacity(ssv, path[..j])
    {
      assert path[..j + 1][..j] == path[..j];
      var cap := ssv[path[j]];
      if cap < minCap {
        minCap := cap;
      }
    }
    assert path[..|path|] == path;
  }

  /** A non-empty path has capacity at most 0 exactly when one of its links has capacity at most 0. */
  lemma CutPath(ssv: seq<real>, path: seq<int>)
    requires InRange(path, |ssv|) && path != []
    ensures PathCapacity(ssv, path) <= 0.0 <==> exists j :: 0 <= j < |path| && ssv[path[j]] <= 0.0
  {
    var c := PathCapacity(ssv, path);
    if c <= 0.0 {
      assert c != DoubleMax;
      var j :| 0 <= j < |path| && c == ssv[path[j]];
      assert ssv[path[j]] <= 0.0;
    }
  }

  /** Formula (3): +inf for a path of capacity at most 0, and otherwise the (wrapped) lead time plus
      ceil(d / capacity). */
  function TransmissionTime(L: seq<int>, ssv: seq<real>, path: seq<int>, d: real): (time: Time)
    requires InRange(path, |L|) && InRange(path, |ssv|)
    ensures 0.0 <= d && time.Fin? ==> Wrap32(LeadSum(L, path)) as real <= time.t
  {
    var cp := PathCapacity(ssv, path);
    if cp <= 0.0 then Inf else Fin(Wrap32(LeadSum(L, path)) as real + Ceil(d / cp) as real)
  }

  /** `calculateTransmissionTime(path, d, ssv)` */
  method CalculateTransmissionTime(net: MFN, path: seq<int>, d: real, ssv: seq<real>) returns (time: Time)
    requires InRange(path, |net.L|) && InRange(path, |ssv|)
    ensures time == TransmissionTime(net.L, ssv, path, d)
  {
    var cp := CalculatePathCapacity(path, ssv);
    if cp <= 0.0 {
      return Inf;
    }
    var lp := CalculatePathLeadTime(net, path);
    return Fin(lp as real + Ceil(d / cp) as real);
  }

  /** A path is cut, that is its transmission time is +inf, exactly when it is non-empty and one of its
      links has capacity at most 0. */
  lemma CutIff(L: seq<int>, ssv: seq<real>, path: seq<int>, d: real)
    requires InRange(path, |L|) && InRange(path, |ssv|)
    ensures (TransmissionTime(L, ssv, path, d) == Inf)
              <==> (path != [] && exists j :: 0 <= j < |path| && ssv[path[j]] <= 0.0)
  {
    if path != [] {
      CutPath(ssv, path);
    }
  }

  /** A finite transmission time exceeds the (wrapped) lead time by the least integer at least d / cp,
      where cp > 0 is the path capacity; for d > 0 that is at least one time unit. */
  lemma FiniteTimeBounds(L: seq<int>, ssv: seq<real>, path: seq<int>, d: real, t: real)
    requires InRange(path, |L|) && InRange(path, |ssv|)
    requires TransmissionTime(L, ssv, path, d) == Fin(t)
    ensures PathCapacity(ssv, path) > 0.0
    ensures d / PathCapacity(ssv, path) <= t - Wrap32(LeadSum(L, path)) as real < d / PathCapacity(ssv, path) + 1.0
    ensures d > 0.0 ==> t >= Wrap32(LeadSum(L, path)) as real + 1.0
  {
    var cp, lead := PathCapacity(ssv, path), Wrap32(LeadSum(L, path)) as real;
    var c := Ceil(d / cp);
    assert t == lead + c as real;
    if d > 0.0 {
      QuotientPositive(d, cp);
    }
  }

  lemma QuotientPositive(d: real, c: real)
    requires 0.0 < d && 0.0 < c
    ensures 0.0 < d / c
  {
  }

  lemma QuotientAntitone(d: real, c1: real, c2: real)
    requires 0.0 <= d && 0.0 < c1 <= c2
    ensures d / c2 <= d / c1
  {
    var q1, q2 := d / c1, d / c2;
    assert q1 * c1 == d && q2 * c2 == d;
    MulMonotone(c1, c2, q2);
    if q1 < q2 {
      MulMonotone(q1, q2, c1);
    }
  }

  /** Raising link capacities never lowers the path capacity. */
  lemma PathCapacityMonotone(ssv1: seq<real>, ssv2: seq<real>, path: seq<int>)
    requires InRange(path, |ssv1|) && InRange(path, |ssv2|)
    requires forall j :: 0 <= j < |path| ==> ssv1[path[j]] <= ssv2[path[j]]
    ensures PathCapacity(ssv1, path) <= PathCapacity(ssv2, path)
  {
    var c2 := PathCapacity(ssv2, path);
    if c2 != DoubleMax {
      var j :| 0 <= j < |path| && c2 == ssv2[path[j]];
      assert PathCapacity(ssv1, path) <= ssv1[path[j]];
    }
  }

  /** For d >= 0, a state with more capacity on every link of the path never makes it slower. */
  lemma TransmissionTimeMonotone(L: seq<int>, ssv1: seq<real>, ssv2: seq<real>, path: seq<int>, d: real)
    requires InRange(path, |L|) && InRange(path, |ssv1|) && InRange(path, |ssv2|) && 0.0 <= d
    requires forall j :: 0 <= j < |path| ==> ssv1[path[j]] <= ssv2[path[j]]
    ensures AtMost(TransmissionTime(L, ssv2, path, d), TransmissionTime(L, ssv1, path, d))
  {
    var c1, c2 := PathCapacity(ssv1, path), PathCapacity(ssv2, path);
    PathCapacityMonotone(ssv1, ssv2, path);
    if c1 > 0.0 {
      QuotientAntitone(d, c1, c2);
      CeilMonotone(d / c2, d / c1);
    }
  }
}
