/**
 * The block decomposition BLOCK_LOW / BLOCK_HIGH that splits the sample
 * indices 0 .. n-1 into p contiguous, nearly equal blocks, one per thread
 * rank.  All operands are non-negative, so C's truncating division and
 * Dafny's Euclidean division agree.
 */
module Block {

  /** Largest value of a C `int` and of a C `long` on an LP64 platform. */
  const IntMax: int := 0x7fff_ffff
  const LongMax: int := 0x7fff_ffff_ffff_ffff

  /** The half-open integer range [lo, hi), in increasing order. */
  function Range(lo: int, hi: int): seq<int>
  {
    if hi <= lo then [] else seq(hi - lo, i => lo + i)
  }

  // ---------------------------------------------------------------------
  // Arithmetic facts about division by a positive divisor.

  /** Euclidean division is determined by quotient and remainder. */
  lemma DivUnique(x: int, p: int, q: int, m: int)
    requires p > 0 && 0 <= m < p && x == q * p + m
    ensures x / p == q && x % p == m
  {
    var q', m' := x / p, x % p;
    var d := q' - q;
    assert d * p == m - m' by {
      assert q' * p - q * p == d * p;
    }
    if d >= 1 {
      MulMonotone(1, d, p);
    } else if d <= -1 {
      MulMonotone(1, -d, p);
    }
  }

  lemma DivMonotone(x: int, y: int, p: int)
    requires p > 0 && x <= y
    ensures x / p <= y / p
  {
    var qx, qy := x / p, y / p;
    var d := qx - qy;
    assert d * p == (x - x % p) - (y - y % p) by {
      assert qx * p - qy * p == d * p;
    }
    if d >= 1 {
      MulMonotone(1, d, p);
    }
  }

  lemma MulMonotone(i: int, j: int, n: int)
    requires 0 <= i <= j && n >= 0
    ensures i * n <= j * n
  {
    assert j * n - i * n == (j - i) * n;
  }

  /** Adding a remainder m < p to x raises the quotient by at most one. */
  lemma DivStep(x: int, m: int, p: int)
    requires p > 0 && x >= 0 && 0 <= m < p
    ensures (x + m) / p == x / p || (x + m) / p == x / p + 1
  {
    var q, r := x / p, x % p;
    if r + m < p {
      DivUnique(x + m, p, q, r + m);
    } else {
      DivUnique(x + m, p, q + 1, r + m - p);
    }
  }

  /** Splitting id * n over n == q * p + m. */
  lemma LowSplit(id: int, p: int, n: int)
    requires p >= 1 && id >= 0 && n >= 0
    ensures id * n / p == id * (n / p) + id * (n % p) / p
  {
    var q, m := n / p, n % p;
    var x := id * m;
    assert id * n == (id * q) * p + x by {
      assert n == q * p + m;
    }
    DivUnique(x, p, x / p, x % p);
    DivUnique(id * n, p, id * q + x / p, x % p);
  }

  // ---------------------------------------------------------------------
  // The two macros.

  /** BLOCK_LOW(id, p, n): first sample index of rank id. */
  function BlockLow(id: int, p: int, n: int): (r: int)
    requires p >= 1 && 0 <= id <= p && n >= 0
    ensures 0 <= r <= n
    ensures id == 0 ==> r == 0
    ensures id == p ==> r == n
  {
    MulMonotone(id, p, n);
    DivMonotone(0, id * n, p);
    DivMonotone(id * n, p * n, p);
    DivUnique(p * n, p, n, 0);
    id * n / p
  }

  /** BLOCK_HIGH(id, p, n): last sample index of rank id (inclusive). */
  function BlockHigh(id: int, p: int, n: int): (r: int)
    requires p >= 1 && 0 <= id < p && n >= 0
    ensures BlockLow(id, p, n) - 1 <= r <= n - 1
    ensures id == p - 1 ==> r == n - 1
  {
    BlockLowMonotone(id, id + 1, p, n);
    BlockLow(id + 1, p, n) - 1
  }

  /** BLOCK_LOW is non-decreasing in the rank. */
  lemma BlockLowMonotone(i: int, j: int, p: int, n: int)
    requires p >= 1 && 0 <= i <= j <= p && n >= 0
    ensures BlockLow(i, p, n) <= BlockLow(j, p, n)
  {
    MulMonotone(i, j, n);
    DivMonotone(i * n, j * n, p);
  }

  /** The intermediate product id * n of BLOCK_LOW, evaluated in `long` for
      any `int` thread count and sample count, cannot overflow. */
  lemma BlockLowNoOverflow(id: int, p: int, n: int)
    requires 1 <= p <= IntMax && 0 <= id <= p && 0 <= n <= IntMax
    ensures 0 <= id * n <= LongMax
  {
    MulMonotone(id, p, n);
    MulMonotone(p, IntMax, n);
    assert IntMax * n <= IntMax * IntMax by {
      assert IntMax * IntMax - IntMax * n == IntMax * (IntMax - n);
    }
  }

  // ---------------------------------------------------------------------
  // Block sizes.

  /** Number of indices in rank id's block: BLOCK_HIGH - BLOCK_LOW + 1.
      Every block has n / p or n / p + 1 elements, exactly n / p when p
      divides n. */
  function BlockSize(id: int, p: int, n: int): (s: int)
    requires p >= 1 && 0 <= id < p && n >= 0
    ensures s == n / p || s == n / p + 1
    ensures n % p == 0 ==> s == n / p
  {
    var q, m := n / p, n % p;
    LowSplit(id, p, n);
    LowSplit(id + 1, p, n);
    assert (id + 1) * m == id * m + m;
    assert (id + 1) * q == id * q + q;
    MulMonotone(0, id, m);
    DivStep(id * m, m, p);
    assert m == 0 ==> id * m == 0 && (id + 1) * m == 0;
    BlockHigh(id, p, n) - BlockLow(id, p, n) + 1
  }

  /** Index k lies in rank id's block [BLOCK_LOW, BLOCK_HIGH]. */
  predicate InBlock(k: int, id: int, p: int, n: int)
    requires p >= 1 && 0 <= id < p && n >= 0
  {
    BlockLow(id, p, n) <= k <= BlockHigh(id, p, n)
  }

  /** The ranks whose block holds index k. */
  function Owners(k: int, p: int, n: int): set<int>
    requires p >= 1 && n >= 0
  {
    set id | 0 <= id < p && InBlock(k, id, p, n)
  }

  /** Two different ranks never share an index. */
  lemma BlocksDisjoint(k: int, i: int, j: int, p: int, n: int)
    requires p >= 1 && 0 <= i < p && 0 <= j < p && n >= 0
    requires InBlock(k, i, p, n) && InBlock(k, j, p, n)
    ensures i == j
  {
    if i < j {
      BlockLowMonotone(i + 1, j, p, n);
    } else if j < i {
      BlockLowMonotone(j + 1, i, p, n);
    }
  }

  /** Every index below BLOCK_LOW(r) lies in the block of some rank below r. */
  lemma {:induction false} CoveredBelow(k: int, r: int, p: int, n: int)
    requires p >= 1 && 0 <= r <= p && n >= 0
    requires 0 <= k < BlockLow(r, p, n)
    ensures exists id :: 0 <= id < r && InBlock(k, id, p, n)
  {
    if k >= BlockLow(r - 1, p, n) {
      assert InBlock(k, r - 1, p, n);
    } else {
      CoveredBelow(k, r - 1, p, n);
    }
  }

  /** Partition theorem: an index in [0, n-1] is owned by exactly one rank,
      and an index outside it by none. */
  lemma ExactlyOneOwner(k: int, p: int, n: int)
    requires p >= 1 && n >= 0
    ensures |Owners(k, p, n)| == if 0 <= k < n then 1 else 0
  {
    if 0 <= k < n {
      CoveredBelow(k, p, p, n);
      var o :| 0 <= o < p && InBlock(k, o, p, n);
      forall id | id in Owners(k, p, n) ensures id == o {
        BlocksDisjoint(k, id, o, p, n);
      }
      assert Owners(k, p, n) == {o};
    } else {
      forall id | 0 <= id < p ensures !InBlock(k, id, p, n) {
        assert k < 0 ==> BlockLow(id, p, n) > k;
      }
      assert Owners(k, p, n) == {};
    }
  }

  /** The indices the blocks of ranks 0 .. r-1 contain, rank by rank, in
      the order their loops visit them. */
  function Visits(r: int, p: int, n: int): seq<int>
    requires p >= 1 && 0 <= r <= p && n >= 0
  {
    if r == 0 then []
    else Visits(r - 1, p, n) + Range(BlockLow(r - 1, p, n), BlockHigh(r - 1, p, n) + 1)
  }

  /** Concatenating the blocks of all ranks yields 0, 1, ..., n-1: every
      index is visited once, in increasing order, with no gap. */
  lemma {:induction false} VisitsAll(r: int, p: int, n: int)
    requires p >= 1 && 0 <= r <= p && n >= 0
    ensures Visits(r, p, n) == Range(0, BlockLow(r, p, n))
  {
    if r > 0 {
      VisitsAll(r - 1, p, n);
      BlockLowMonotone(r - 1, r, p, n);
      var lo, hi := BlockLow(r - 1, p, n), BlockLow(r, p, n);
      assert Range(0, lo) + Range(lo, hi) == Range(0, hi);
    }
  }

  /** A rank's block is empty (BLOCK_LOW > BLOCK_HIGH) for some rank exactly
      when there are fewer samples than ranks. */
  lemma EmptyBlockIff(p: int, n: int)
    requires p >= 1 && n >= 0
    ensures (exists id :: 0 <= id < p && BlockSize(id, p, n) == 0) <==> n < p
  {
    if n < p {
      DivUnique(n, p, 0, n);
      if forall id :: 0 <= id < p ==> BlockSize(id, p, n) != 0 {
        NonEmptyPrefix(p, p, n);
        assert false;
      }
    } else {
      DivMonotone(p, n, p);
      DivUnique(p, p, 1, 0);
      forall id | 0 <= id < p ensures BlockSize(id, p, n) >= 1 {
      }
    }
  }

  /** If the first r blocks are all non-empty, BLOCK_LOW(r) is at least r. */
  lemma {:induction false} NonEmptyPrefix(r: int, p: int, n: int)
    requires p >= 1 && 0 <= r <= p && n >= 0
    requires forall id :: 0 <= id < r ==> BlockSize(id, p, n) >= 1
    ensures BlockLow(r, p, n) >= r
  {
    if r > 0 {
      NonEmptyPrefix(r - 1, p, n);
      assert BlockSize(r - 1, p, n) >= 1;
    }
  }
}
