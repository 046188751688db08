/**
 * The worker mutex_Trap and its fork-join driver, run sequentially over exact
 * reals.  Each rank sums the integrand over its own block of sample indices,
 * rank 1 adds the endpoint term once, the sum is scaled by the step size and
 * added once to the shared total GLOBAL_MUTEX_SUM.
 */
module Trap {
  import opened Block
  import opened Sums

  /** The process-wide inputs set once before the threads start: the interval
      [a, b], the number of subdivisions n and the step size h. */
  datatype Params = Params(a: real, b: real, n: nat, h: real)

  /** The sample point x_i = a + i*h. */
  function Point(P: Params, i: int): real
  {
    P.a + (i as real) * P.h
  }

  /** The integrand at sample index i: f(x_i). */
  function Sample(f: real -> real, P: Params, i: int): real
  {
    f(Point(P, i))
  }

  /** Sum of the samples with index in [lo, hi), in increasing index order. */
  function SampleSum(f: real -> real, P: Params, lo: int, hi: int): real
    decreases hi - lo
  {
    if hi <= lo then 0.0 else SampleSum(f, P, lo, hi - 1) + Sample(f, P, hi - 1)
  }

  /** A sample sum splits at any point between its bounds. */
  lemma {:induction false} SampleSumSplit(f: real -> real, P: Params, lo: int, mid: int, hi: int)
    requires lo <= mid <= hi
    ensures SampleSum(f, P, lo, hi) == SampleSum(f, P, lo, mid) + SampleSum(f, P, mid, hi)
    decreases hi - mid
  {
    if mid < hi {
      SampleSumSplit(f, P, lo, mid, hi - 1);
    }
  }

  /** Scaling by the step size, as in `local_int * h`. */
  function Scaled(x: real, h: real): real
  {
    x * h
  }

  /** Adding two amounts scaled by h is scaling their sum by h. */
  lemma AddScaled(x: real, y: real, h: real)
    ensures Scaled(x, h) + Scaled(y, h) == Scaled(x + y, h)
  {
  }

  /** A variant of the worker: which rank adds the endpoint correction, and
      the smallest sample index a rank's loop may start at. */
  datatype Worker = Worker(endpointRank: int, minIndex: nat)

  /** mutex_Trap as written: the rank value 1 owns the endpoint correction and
      every loop starts at its block's BLOCK_LOW. */
  const AsWritten: Worker := Worker(1, 0)

  /** Rank `rank` is the one that adds the endpoint correction. */
  predicate AddsEndpoint(W: Worker, rank: int)
  {
    rank == W.endpointRank
  }

  /** The endpoint correction (f(a) + f(b)) / 2, added by the special rank. */
  function EndpointTerm(f: real -> real, P: Params, W: Worker, rank: int): real
  {
    if AddsEndpoint(W, rank) then (f(P.a) + f(P.b)) / 2.0 else 0.0
  }

  /** The ranks among 0 .. p-1 that add the endpoint correction: as written,
      rank 1 when there are at least two threads, and none with one. */
  function EndpointRanks(W: Worker, p: int): (s: set<int>)
    ensures s == if 0 <= W.endpointRank < p then {W.endpointRank} else {}
    ensures W == AsWritten ==> s == if p >= 2 then {1} else {}
  {
    set rank | 0 <= rank < p && AddsEndpoint(W, rank)
  }

  /** The endpoint correction summed over ranks 0 .. r-1. */
  function EndpointShare(f: real -> real, P: Params, W: Worker, r: int): real
  {
    if 0 <= W.endpointRank < r then (f(P.a) + f(P.b)) / 2.0 else 0.0
  }

  /** The first index rank `rank`'s loop visits: its BLOCK_LOW, raised to the
      worker's smallest index. */
  function LoopStart(W: Worker, rank: int, p: int, n: int): int
    requires p >= 1 && 0 <= rank <= p && n >= 0
  {
    if BlockLow(rank, p, n) < W.minIndex then W.minIndex else BlockLow(rank, p, n)
  }

  /** local_int before scaling: the endpoint term of rank `rank` of p plus
      the samples its loop visits, up to BLOCK_HIGH. */
  function LocalSum(f: real -> real, P: Params, W: Worker, p: int, rank: int): real
    requires p >= 1 && 0 <= rank < p
  {
    EndpointTerm(f, P, W, rank) + SampleSum(f, P, LoopStart(W, rank, p, P.n), BlockHigh(rank, p, P.n) + 1)
  }

  /** What rank `rank` of p adds to the shared total: its local sum times h. */
  function Contribution(f: real -> real, P: Params, W: Worker, p: int, rank: int): real
    requires p >= 1 && 0 <= rank < p
  {
    Scaled(LocalSum(f, P, W, p, rank), P.h)
  }

  /** The contributions of a run with p threads, by rank (0 outside 0 .. p-1). */
  function Contributions(f: real -> real, P: Params, W: Worker, p: int): int -> real
    requires p >= 1
  {
    rank => if 0 <= rank < p then Contribution(f, P, W, p, rank) else 0.0
  }

  /** The value of GLOBAL_MUTEX_SUM after all p threads have added to it. */
  function Estimate(f: real -> real, P: Params, W: Worker, p: int): real
    requires p >= 1
  {
    Sum(Contributions(f, P, W, p), Range(0, p))
  }

  /** The local sums of ranks 0 .. r-1 added up. */
  function LocalSums(f: real -> real, P: Params, W: Worker, p: int, r: int): real
    requires p >= 1 && 0 <= r <= p
  {
    if r == 0 then 0.0 else LocalSums(f, P, W, p, r - 1) + LocalSum(f, P, W, p, r - 1)
  }

  /** A rank whose block is empty (BLOCK_LOW > BLOCK_HIGH) adds only its
      scaled endpoint term, so every rank but the special one adds nothing. */
  lemma EmptyBlockContribution(f: real -> real, P: Params, W: Worker, p: int, rank: int)
    requires p >= 1 && 0 <= rank < p && BlockHigh(rank, p, P.n) < BlockLow(rank, p, P.n)
    ensures Contribution(f, P, W, p, rank) == Scaled(EndpointTerm(f, P, W, rank), P.h)
    ensures rank != W.endpointRank ==> Contribution(f, P, W, p, rank) == 0.0
  {
  }

  /** After ranks 0 .. r-1, the local sums hold the endpoint share of those
      ranks plus every sample from the smallest index up to BLOCK_LOW(r),
      each once. */
  lemma {:induction false} PrefixSum(f: real -> real, P: Params, W: Worker, p: int, r: int)
    requires p >= 1 && 0 <= r <= p
    ensures LocalSums(f, P, W, p, r) == EndpointShare(f, P, W, r) + SampleSum(f, P, W.minIndex, BlockLow(r, p, P.n))
  {
    if r > 0 {
      var q := r - 1;
      PrefixSum(f, P, W, p, q);
      BlockLowMonotone(q, r, p, P.n);
      var m, low, hi := W.minIndex, BlockLow(q, p, P.n), BlockLow(r, p, P.n);
      if m <= low {
        SampleSumSplit(f, P, m, low, hi);
      } else {
        assert SampleSum(f, P, m, low) == 0.0;
      }
    }
  }

  /** Scaling each rank's local sum by h and adding, as the threads do, is
      scaling the sum of the local sums by h. */
  lemma {:induction false} PrefixScaled(f: real -> real, P: Params, W: Worker, p: int, r: int)
    requires p >= 1 && 0 <= r <= p
    ensures Sum(Contributions(f, P, W, p), Range(0, r)) == Scaled(LocalSums(f, P, W, p, r), P.h)
  {
    if r > 0 {
      var q := r - 1;
      PrefixScaled(f, P, W, p, q);
      assert Range(0, r) == Range(0, q) + [q];
      SumSnoc(Contributions(f, P, W, p), Range(0, q), q);
      AddScaled(LocalSums(f, P, W, p, q), LocalSum(f, P, W, p, q), P.h);
    } else {
      assert Range(0, r) == [];
    }
  }

  /** Main theorem: whatever the thread count, the ranks together add h times
      every sample from the smallest index up to n-1 once, plus the endpoint
      term once when its rank exists. As written, that is every sample in
      [0, n-1], with the endpoint term when there are at least two threads
      and without it when there is one. */
  lemma TotalOverRanks(f: real -> real, P: Params, W: Worker, p: int)
    requires p >= 1
    ensures Estimate(f, P, W, p) == Scaled(EndpointShare(f, P, W, p) + SampleSum(f, P, W.minIndex, P.n), P.h)
  {
    PrefixScaled(f, P, W, p, p);
    PrefixSum(f, P, W, p, p);
  }

  /** As written, the estimate is the same for every thread count of two or
      more. */
  lemma ThreadCountInvariance(f: real -> real, P: Params, p: int, q: int)
    requires p >= 2 && q >= 2
    ensures Estimate(f, P, AsWritten, p) == Estimate(f, P, AsWritten, q)
  {
    TotalOverRanks(f, P, AsWritten, p);
    TotalOverRanks(f, P, AsWritten, q);
  }

  /** With no subdivisions every block is empty and only the endpoint term
      reaches the total. */
  lemma NoSubdivisions(f: real -> real, P: Params, W: Worker, p: int)
    requires p >= 1 && P.n == 0
    ensures forall id :: 0 <= id < p ==> BlockSize(id, p, P.n) == 0
    ensures Estimate(f, P, W, p) == Scaled(EndpointShare(f, P, W, p), P.h)
  {
    TotalOverRanks(f, P, W, p);
    assert SampleSum(f, P, W.minIndex, 0) == 0.0;
  }

  /** Whatever order the ranks reach the lock in, the total is the same. */
  lemma AnyFinishOrder(f: real -> real, P: Params, W: Worker, p: int, finishOrder: seq<int>)
    requires p >= 1
    requires multiset(finishOrder) == multiset(Range(0, p))
    ensures Sum(Contributions(f, P, W, p), finishOrder) == Estimate(f, P, W, p)
  {
    SumPermutation(Contributions(f, P, W, p), finishOrder, Range(0, p));
  }

  /** The local part of mutex_Trap: rank `rank` of p computes its block, sums
      the samples of that block (after the endpoint term if it is rank 1) and
      scales the sum by h. */
  method LocalIntegral(f: real -> real, P: Params, p: int, rank: int) returns (localInt: real)
    requires p >= 1 && 0 <= rank < p
    ensures localInt == Contribution(f, P, AsWritten, p, rank)
    ensures BlockHigh(rank, p, P.n) < BlockLow(rank, p, P.n) ==> localInt == Scaled(EndpointTerm(f, P, AsWritten, rank), P.h)
  {
    localInt := 0.0;
    var localA := BlockLow(rank, p, P.n);
    var localB := BlockHigh(rank, p, P.n);
    ghost var e := EndpointTerm(f, P, AsWritten, rank);
    if rank == 1 {
      localInt := localInt + (f(P.a) + f(P.b)) / 2.0;
    }
    assert localInt == e;
    assert LoopStart(AsWritten, rank, p, P.n) == localA;
    var i := localA;
    while i <= localB
      invariant localA <= i <= localB + 1
      invariant localInt == e + SampleSum(f, P, localA, i)
    {
      localInt := localInt + Sample(f, P, i);
      i := i + 1;
    }
    assert localInt == LocalSum(f, P, AsWritten, p, rank);
    localInt := Scaled(localInt, P.h);
  }

  /** GLOBAL_MUTEX_SUM, the total shared by the threads. */
  class Accumulator {
    var total: real

    constructor ()
      ensures total == 0.0
    {
      total := 0.0;
    }

    /** The critical section: one locked addition. */
    method Add(x: real)
      modifies this
      ensures total == old(total) + x
    {
      total := total + x;
    }
  }

  /** mutex_Trap: compute the local integral, then add it to the shared total
      exactly once. */
  method MutexTrap(acc: Accumulator, f: real -> real, P: Params, p: int, rank: int)
    requires p >= 1 && 0 <= rank < p
    modifies acc
    ensures acc.total == old(acc.total) + Contribution(f, P, AsWritten, p, rank)
  {
    var localInt := LocalIntegral(f, P, p, rank);
    acc.Add(localInt);
  }

  /** A permutation of the ranks 0 .. p-1 lists only ranks of the run. */
  lemma PermutationRanks(s: seq<int>, p: int, j: int)
    requires multiset(s) == multiset(Range(0, p)) && 0 <= j < |s|
    ensures 0 <= s[j] < p
  {
    assert s[j] in multiset(Range(0, p));
  }

  /** The fork-join driver: the total starts at 0 and each of the p ranks adds
      its contribution once, in the order `finishOrder` in which the threads
      reach the lock, which may be any permutation of 0 .. p-1. */
  method Integrate(f: real -> real, P: Params, p: int, finishOrder: seq<int>) returns (total: real)
    requires p >= 1
    requires multiset(finishOrder) == multiset(Range(0, p))
    ensures total == Estimate(f, P, AsWritten, p)
    ensures total == Scaled(EndpointShare(f, P, AsWritten, p) + SampleSum(f, P, 0, P.n), P.h)
  {
    var acc := new Accumulator();
    var j := 0;
    while j < |finishOrder|
      invariant 0 <= j <= |finishOrder|
      invariant acc.total == Sum(Contributions(f, P, AsWritten, p), finishOrder[..j])
    {
      var rank := finishOrder[j];
      PermutationRanks(finishOrder, p, j);
      MutexTrap(acc, f, P, p, rank);
      assert finishOrder[..j + 1] == finishOrder[..j] + [rank];
      SumSnoc(Contributions(f, P, AsWritten, p), finishOrder[..j], rank);
      j := j + 1;
    }
    total := acc.total;
    assert finishOrder[..j] == finishOrder;
    AnyFinishOrder(f, P, AsWritten, p, finishOrder);
    TotalOverRanks(f, P, AsWritten, p);
  }
}
