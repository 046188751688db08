/**
 * The composite trapezoidal rule as a sum of trapezoid areas, and how the
 * estimate that mutex_Trap accumulates relates to it.  The worker sums the
 * samples 0 .. n-1 on top of the endpoint term (f(a) + f(b)) / 2, so f(a)
 * is counted with weight 3/2 instead of 1/2; with a single thread the
 * endpoint term is missing altogether.  A corrected worker, whose block
 * sums skip index 0 and whose rank 0 adds the endpoint term, yields the
 * rule exactly for every thread count.
 */
module TrapRule {
  import opened Block
  import opened Sums
  import opened Trap

  /** The mean heights of the first k trapezoids, (f(x_j) + f(x_{j+1})) / 2
      for j = 0 .. k-1, added up. */
  function Heights(f: real -> real, P: Params, k: int): real
    decreases k
  {
    if k <= 0 then 0.0 else Heights(f, P, k - 1) + (Sample(f, P, k - 1) + Sample(f, P, k)) / 2.0
  }

  /** The trapezoidal rule with n trapezoids of width h: the sum of their
      areas. */
  function TrapezoidRule(f: real -> real, P: Params): real
  {
    Scaled(Heights(f, P, P.n), P.h)
  }

  /** The step size h = (b - a) / n of the run, stated as n * h == b - a. */
  predicate StepMatches(P: Params)
  {
    P.n >= 1 && (P.n as real) * P.h == P.b - P.a
  }

  /** StepMatches is exactly h = (b - a) / n with at least one subdivision. */
  lemma StepMatchesIff(P: Params)
    ensures StepMatches(P) <==> P.n >= 1 && P.h == (P.b - P.a) / (P.n as real)
  {
    if P.n >= 1 {
      var N := P.n as real;
      assert N * ((P.b - P.a) / N) == P.b - P.a;
      if N * P.h == P.b - P.a {
        assert P.h == (N * P.h) / N;
      }
    }
  }

  /** Sample 0 is at a, and with h = (b - a) / n sample n is at b. */
  lemma SampleEnds(f: real -> real, P: Params)
    requires StepMatches(P)
    ensures Sample(f, P, 0) == f(P.a) && Sample(f, P, P.n) == f(P.b)
  {
    assert Point(P, 0) == P.a;
    assert Point(P, P.n) == P.b;
  }

  /** The rule counts the end samples with weight 1/2 and the interior
      samples 1 .. k-1 with weight 1. */
  lemma {:induction false} HeightsClosedForm(f: real -> real, P: Params, k: int)
    requires k >= 1
    ensures Heights(f, P, k) == (Sample(f, P, 0) + Sample(f, P, k)) / 2.0 + SampleSum(f, P, 1, k)
  {
    if k > 1 {
      HeightsClosedForm(f, P, k - 1);
    }
  }

  /** The samples 0 .. n-1 are f(a) plus the interior samples 1 .. n-1. */
  lemma FirstSample(f: real -> real, P: Params, n: int)
    requires n >= 1
    ensures SampleSum(f, P, 0, n) == Sample(f, P, 0) + SampleSum(f, P, 1, n)
  {
    SampleSumSplit(f, P, 0, 1, n);
  }

  /** As written, with two or more threads the estimate is the trapezoidal
      rule plus one extra h * f(a). */
  lemma AsWrittenAddsLeftSample(f: real -> real, P: Params, p: int)
    requires p >= 2 && StepMatches(P)
    ensures Estimate(f, P, AsWritten, p) == Scaled(Heights(f, P, P.n) + f(P.a), P.h)
  {
    TotalOverRanks(f, P, AsWritten, p);
    SampleEnds(f, P);
    HeightsClosedForm(f, P, P.n);
    FirstSample(f, P, P.n);
  }

  /** As written, with one thread no rank adds the endpoint term and the
      estimate is the left-point sum h * (f(x_0) + ... + f(x_{n-1})). */
  lemma AsWrittenSingleThread(f: real -> real, P: Params)
    requires StepMatches(P)
    ensures Estimate(f, P, AsWritten, 1) == Scaled(Heights(f, P, P.n) + (f(P.a) - f(P.b)) / 2.0, P.h)
  {
    TotalOverRanks(f, P, AsWritten, 1);
    SampleEnds(f, P);
    HeightsClosedForm(f, P, P.n);
    FirstSample(f, P, P.n);
  }

  /** The integrand of the program, x^2 - 4x + 8. */
  function Integrand(x: real): real
  {
    x * x - 4.0 * x + 8.0
  }

  /** One trapezoid on [1, 5] with two threads: the rule gives 36, the
      program 56. */
  lemma AsWrittenExample()
    ensures Estimate(Integrand, Params(1.0, 5.0, 1, 4.0), AsWritten, 2) == 56.0
    ensures TrapezoidRule(Integrand, Params(1.0, 5.0, 1, 4.0)) == 36.0
  {
    var P := Params(1.0, 5.0, 1, 4.0);
    TotalOverRanks(Integrand, P, AsWritten, 2);
    assert SampleSum(Integrand, P, 0, 1) == Sample(Integrand, P, 0) == 5.0;
    assert Sample(Integrand, P, 1) == 13.0;
    assert Heights(Integrand, P, 1) == 9.0;
  }

  // ---------------------------------------------------------------------
  // The corrected worker.

  /** The corrected worker: rank 0, which exists for every thread count,
      adds the endpoint term, and no loop visits the left end 0, whose
      weight the endpoint term already carries. */
  const Corrected: Worker := Worker(0, 1)

  /** The corrected workers compute the trapezoidal rule exactly, for every
      thread count, in any finishing order. */
  lemma CorrectedIsTrapezoidRule(f: real -> real, P: Params, p: int, finishOrder: seq<int>)
    requires p >= 1 && StepMatches(P)
    requires multiset(finishOrder) == multiset(Range(0, p))
    ensures Estimate(f, P, Corrected, p) == TrapezoidRule(f, P)
    ensures Sum(Contributions(f, P, Corrected, p), finishOrder) == TrapezoidRule(f, P)
  {
    TotalOverRanks(f, P, Corrected, p);
    SampleEnds(f, P);
    HeightsClosedForm(f, P, P.n);
    AnyFinishOrder(f, P, Corrected, p, finishOrder);
  }

  /** The corrected local part of mutex_Trap: rank 0 adds the endpoint term
      and the loop starts at index 1 at the earliest. */
  method CorrectedLocalIntegral(f: real -> real, P: Params, p: int, rank: int) returns (localInt: real)
    requires p >= 1 && 0 <= rank < p
    ensures localInt == Contribution(f, P, Corrected, p, rank)
  {
    localInt := 0.0;
    var localA := BlockLow(rank, p, P.n);
    var localB := BlockHigh(rank, p, P.n);
    ghost var e := EndpointTerm(f, P, Corrected, rank);
    if rank == 0 {
      localInt := localInt + (f(P.a) + f(P.b)) / 2.0;
    }
    assert localInt == e;
    var start := if localA < 1 then 1 else localA;
    assert start == LoopStart(Corrected, rank, p, P.n);
    ghost var stop := if localB + 1 < start then start else localB + 1;
    var i := start;
    while i <= localB
      invariant start <= i <= stop
      invariant localInt == e + SampleSum(f, P, start, i)
    {
      localInt := localInt + Sample(f, P, i);
      i := i + 1;
    }
    assert SampleSum(f, P, start, stop) == SampleSum(f, P, start, localB + 1);
    assert localInt == LocalSum(f, P, Corrected, p, rank);
    localInt := Scaled(localInt, P.h);
  }
}
