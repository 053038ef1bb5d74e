/** `MFN.Combinatorial`: factorials and binomial coefficients over exact reals, and the binomial theorem
    the per-link distribution relies on. */
module Combinatorial {
  import opened Numeric

  /** n!, as the double the source computes (exactly, here). */
  function Fact(n: nat): (r: real)
    ensures r > 0.0
  {
    if n == 0 then 1.0 else n as real * Fact(n - 1)
  }

  /** `factorial(n)`: the product 1 * 2 * ... * n, accumulated in a loop; a negative n skips the loop. */
  method Factorial(n: int) returns (result: real)
    ensures n >= 0 ==> result == Fact(n)
    ensures n < 0 ==> result == 1.0
  {
    if n == 0 {
      return 1.0;
    }
    result := 1.0;
    var i := 1;
    while i <= n
      invariant 1 <= i && (n >= 0 ==> i <= n + 1) && (n < 0 ==> i == 1)
      invariant result == Fact(i - 1)
    {
      result := result * i as real;
      i := i + 1;
    }
  }

  /** `binomialCoefficient(n, k)`: n! / (k! (n-k)!), and 0 outside 0 <= k <= n. */
  function Binomial(n: int, k: int): (r: real)
    ensures r >= 0.0
    ensures r > 0.0 <==> 0 <= k <= n
  {
    if k < 0 || k > n then 0.0 else Fact(n) / (Fact(k) * Fact(n - k))
  }

  lemma BinomialEnds(n: nat)
    ensures Binomial(n, 0) == 1.0 && Binomial(n, n) == 1.0
  {
    assert Fact(n) / (Fact(0) * Fact(n)) == 1.0;
    assert Fact(n) / (Fact(n) * Fact(0)) == 1.0;
  }

  lemma BinomialSymmetric(n: nat, k: int)
    ensures Binomial(n, k) == Binomial(n, n - k)
  {
    if 0 <= k <= n {
      assert n - (n - k) == k;
      assert Fact(k) * Fact(n - k) == Fact(n - k) * Fact(k);
    }
  }

  /** C(n, k) by Pascal's triangle: the number of k-element subsets of an n-element set. */
  function Choose(n: int, k: int): real
    decreases n
  {
    if k < 0 || k > n then 0.0 else if k == 0 || k == n then 1.0 else Choose(n - 1, k - 1) + Choose(n - 1, k)
  }

  /** n! = C(n, k) k! j!, for j = n - k. */
  predicate FactorialSplit(n: nat, k: nat, j: nat)
  {
    ProductIs(Choose(n, k), Fact(k), Fact(j), Fact(n))
  }

  lemma FactStep(n: nat)
    requires n > 0
    ensures ScaledBy(Fact(n), n as real, Fact(n - 1))
  {
  }

  /** The field identity behind one Pascal step, with b = C(n, k), b1 = C(n-1, k-1), b2 = C(n-1, k),
      a = (k-1)!, c = (n-k-1)!, F = (n-1)!, and kk, nk, nn standing for k, n-k and n. */
  lemma PascalAlgebra(b: real, b1: real, b2: real, F: real, a: real, c: real, kk: real, nk: real, nn: real,
                      fk: real, fnk: real, fn: real)
    requires b == b1 + b2 && nn == kk + nk
    requires ScaledBy(fk, kk, a) && ScaledBy(fnk, nk, c) && ScaledBy(fn, nn, F)
    requires ProductIs(b1, a, fnk, F) && ProductIs(b2, fk, c, F)
    ensures ProductIs(b, fk, fnk, fn)
  {
    assert b1 * (fk * fnk) == kk * (b1 * (a * fnk));
    assert b2 * (fk * fnk) == nk * (b2 * (fk * c));
  }

  lemma PascalStep(n: nat, k: nat, j: nat)
    requires k + j == n && 0 < k && 0 < j
    requires FactorialSplit(n - 1, k - 1, j) && FactorialSplit(n - 1, k, j - 1)
    ensures FactorialSplit(n, k, j)
  {
    FactStep(n);
    FactStep(k);
    FactStep(j);
    PascalAlgebra(Choose(n, k), Choose(n - 1, k - 1), Choose(n - 1, k),
                  Fact(n - 1), Fact(k - 1), Fact(j - 1), k as real, j as real, n as real,
                  Fact(k), Fact(j), Fact(n));
  }

  lemma {:induction false} ChooseTimesFact(n: nat, k: nat, j: nat)
    requires k + j == n
    ensures FactorialSplit(n, k, j)
    decreases n
  {
    if k == 0 {
      assert j == n;
      assert Choose(n, k) == 1.0;
    } else if j == 0 {
      assert k == n;
      assert Choose(n, k) == 1.0;
    } else {
      ChooseTimesFact(n - 1, k - 1, j);
      ChooseTimesFact(n - 1, k, j - 1);
      PascalStep(n, k, j);
    }
  }

  lemma QuotientOfProduct(x: real, c: real, y: real)
    requires y > 0.0 && c * y == x
    ensures x / y == c
  {
  }

  /** The source's real-valued coefficient is exactly Pascal's integer C(n, k), for every n and k. */
  lemma BinomialIsChoose(n: int, k: int)
    ensures Binomial(n, k) == Choose(n, k)
  {
    if 0 <= k <= n {
      ChooseTimesFact(n, k, n - k);
      QuotientOfProduct(Fact(n), Choose(n, k), Fact(k) * Fact(n - k));
    }
  }

  /** Pascal's rule, over the real-valued coefficients of the source. */
  lemma Pascal(n: nat, k: nat)
    requires 1 <= k <= n
    ensures Binomial(n, k) == Binomial(n - 1, k - 1) + Binomial(n - 1, k)
  {
    BinomialIsChoose(n, k);
    BinomialIsChoose(n - 1, k - 1);
    BinomialIsChoose(n - 1, k);
  }

  /** The k-th term C(n, k) p^k q^(n-k) of the expansion of (p + q)^n, and 0 for k outside [0, n]. */
  function BinomialTerm(n: nat, k: int, p: real, q: real): real
  {
    if 0 <= k <= n then Choose(n, k) * Pow(p, k) * Pow(q, n - k) else 0.0
  }

  /** The terms of the expansion of (p + q)^n, as a function of k. */
  function Expansion(n: nat, p: real, q: real): int -> real
  {
    k => BinomialTerm(n, k, p, q)
  }

  /** t(0) + t(1) + ... + t(j-1), accumulated from k = 0 upwards. */
  function PartialSum(t: int -> real, j: nat): real
  {
    if j == 0 then 0.0 else PartialSum(t, j - 1) + t(j - 1)
  }

  /** t = a b c, kept behind a name so that the three factors are matched as terms. */
  predicate Product3(t: real, a: real, b: real, c: real)
  {
    t == a * b * c
  }

  /** Pascal's rule lifted to the terms: C(n, k) p^k q^(n-k) = p C(n-1, k-1) p^(k-1) q^(n-k)
      + q C(n-1, k) p^k q^(n-1-k). */
  lemma TermPascal(n: nat, k: int, p: real, q: real)
    requires 1 <= n && 0 <= k <= n
    ensures BinomialTerm(n, k, p, q) == p * BinomialTerm(n - 1, k - 1, p, q) + q * BinomialTerm(n - 1, k, p, q)
  {
    if k == 0 {
      TermPascalFirst(n, p, q);
    } else if k == n {
      TermPascalLast(n, p, q);
    } else {
      TermFactors(n, k, p, q);
      TermFactorsLeft(n, k, p, q);
      TermFactorsRight(n, k, p, q);
      TermAlgebra(BinomialTerm(n, k, p, q), BinomialTerm(n - 1, k - 1, p, q), BinomialTerm(n - 1, k, p, q),
                  Choose(n - 1, k - 1), Choose(n - 1, k), p, Pow(p, k - 1), q, Pow(q, n - k - 1));
    }
  }

  lemma TermPascalFirst(n: nat, p: real, q: real)
    requires 1 <= n
    ensures BinomialTerm(n, 0, p, q) == p * BinomialTerm(n - 1, -1, p, q) + q * BinomialTerm(n - 1, 0, p, q)
  {
    assert Pow(q, n) == q * Pow(q, n - 1);
  }

  lemma TermPascalLast(n: nat, p: real, q: real)
    requires 1 <= n
    ensures BinomialTerm(n, n, p, q) == p * BinomialTerm(n - 1, n - 1, p, q) + q * BinomialTerm(n - 1, n, p, q)
  {
    assert Pow(p, n) == p * Pow(p, n - 1);
  }

  lemma TermFactors(n: nat, k: int, p: real, q: real)
    requires 1 <= k < n
    ensures Product3(BinomialTerm(n, k, p, q), Choose(n - 1, k - 1) + Choose(n - 1, k),
                     p * Pow(p, k - 1), q * Pow(q, n - k - 1))
  {
    assert Pow(q, n - k) == q * Pow(q, n - k - 1);
  }

  lemma TermFactorsLeft(n: nat, k: int, p: real, q: real)
    requires 1 <= k < n
    ensures Product3(BinomialTerm(n - 1, k - 1, p, q), Choose(n - 1, k - 1), Pow(p, k - 1), q * Pow(q, n - k - 1))
  {
    assert n - 1 - (k - 1) == n - k;
    assert Pow(q, n - k) == q * Pow(q, n - k - 1);
  }

  lemma TermFactorsRight(n: nat, k: int, p: real, q: real)
    requires 1 <= k < n
    ensures Product3(BinomialTerm(n - 1, k, p, q), Choose(n - 1, k), p * Pow(p, k - 1), Pow(q, n - k - 1))
  {
    assert n - 1 - k == n - k - 1;
  }

  lemma TermAlgebra(t: real, t1: real, t2: real, b1: real, b2: real, p: real, pp: real, q: real, qq: real)
    requires Product3(t, b1 + b2, p * pp, q * qq)
    requires Product3(t1, b1, pp, q * qq) && Product3(t2, b2, p * pp, qq)
    ensures t == p * t1 + q * t2
  {
  }

  /** s = p a + q b, kept behind a name so that the two weighted parts are matched as terms. */
  predicate Blend(s: real, p: real, a: real, q: real, b: real)
  {
    s == p * a + q * b
  }

  /** One step of the induction in PartialSumRecurrence, with every unfolding given as a hypothesis. */
  lemma StepAlgebra(p: real, q: real, s: real, sPrev: real, t: real, a: real, b: real, bNext: real, ta: real, tb: real)
    requires s == sPrev + t && Blend(sPrev, p, a, q, b) && Blend(t, p, ta, q, tb)
    requires b == a + ta && bNext == b + tb
    ensures Blend(s, p, b, q, bNext)
  {
  }

  /** If every t(k) is p u(k-1) + q u(k), the partial sums of t are p and q times shifted partial sums of u. */
  lemma {:induction false} PartialSumRecurrence(t: int -> real, u: int -> real, p: real, q: real, j: nat)
    requires 1 <= j && u(-1) == 0.0
    requires forall k :: 0 <= k < j ==> Blend(t(k), p, u(k - 1), q, u(k))
    ensures Blend(PartialSum(t, j), p, PartialSum(u, j - 1), q, PartialSum(u, j))
  {
    if j > 1 {
      PartialSumRecurrence(t, u, p, q, j - 1);
      StepAlgebra(p, q, PartialSum(t, j), PartialSum(t, j - 1), t(j - 1),
                  PartialSum(u, j - 2), PartialSum(u, j - 1), PartialSum(u, j), u(j - 2), u(j - 1));
    } else {
      assert Blend(t(0), p, u(-1), q, u(0));
    }
  }

  /** The terms of (p + q)^n follow from those of (p + q)^(n-1) by Pascal's rule. */
  lemma ExpansionPascal(n: nat, p: real, q: real)
    requires 1 <= n
    ensures forall k :: 0 <= k < n + 1 ==>
              Blend(Expansion(n, p, q)(k), p, Expansion(n - 1, p, q)(k - 1), q, Expansion(n - 1, p, q)(k))
  {
    forall k | 0 <= k < n + 1
      ensures Blend(Expansion(n, p, q)(k), p, Expansion(n - 1, p, q)(k - 1), q, Expansion(n - 1, p, q)(k))
    {
      TermPascal(n, k, p, q);
    }
  }

  /** p a + q a = (p + q) a, for the sums and the power of the induction step. */
  lemma DistributeSum(s: real, a: real, b: real, p: real, q: real, c: real)
    requires Blend(s, p, a, q, b) && b == a && ScaledBy(c, p + q, a)
    ensures s == c
  {
  }

  lemma PowStep(x: real, n: nat)
    requires 1 <= n
    ensures ScaledBy(Pow(x, n), x, Pow(x, n - 1))
  {
  }

  /** The binomial theorem: the terms C(n, k) p^k q^(n-k), k = 0..n, add up to (p + q)^n. */
  lemma {:induction false} BinomialTheorem(n: nat, p: real, q: real)
    ensures PartialSum(Expansion(n, p, q), n + 1) == Pow(p + q, n)
  {
    if n > 0 {
      var t, u := Expansion(n, p, q), Expansion(n - 1, p, q);
      ExpansionPascal(n, p, q);
      assert u(-1) == 0.0;
      PartialSumRecurrence(t, u, p, q, n + 1);
      BinomialTheorem(n - 1, p, q);
      assert u(n) == 0.0;
      assert PartialSum(u, n + 1) == PartialSum(u, n) + u(n);
      PowStep(p + q, n);
      DistributeSum(PartialSum(t, n + 1), PartialSum(u, n), PartialSum(u, n + 1), p, q, Pow(p + q, n));
    }
  }
}
