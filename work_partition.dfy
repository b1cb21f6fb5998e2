/**
 * How the ttcr2ds driver splits its `nTx` sources among threads: the
 * thread count, the block size, and the ranges `[start, end)` of source
 * indices handed to each worker (worker ids 1 .. k-1) and to the calling
 * thread (id 0). Threads themselves are not modelled; only the ranges
 * they are given.
 */
module WorkPartition {
  import opened Outcomes

  /** Fewest sources per thread in automatic mode. */
  const MinPerThread: nat := 5
  /** Thread count assumed when the platform reports none. */
  const FallbackThreads: nat := 2

  /** Threads available in automatic mode, given the reported hardware concurrency. */
  function Available(hw: nat): (a: nat)
    ensures a >= 1
    ensures hw != 0 ==> a == hw
  {
    if hw != 0 then hw else FallbackThreads
  }

  /**
   * The number of threads for `nTx` sources: `nt == 0` is automatic mode,
   * any other `nt` is the user's request.
   */
  function NumThreads(nt: nat, nTx: nat, hw: nat): (k: nat)
    // never more threads than sources, and none only when there are no sources
    ensures k <= nTx
    ensures k == 0 <==> nTx == 0
    // explicit mode: the request, capped by the source count
    ensures nt != 0 ==> k <= nt && (k == nt || k == nTx)
    // automatic mode: at most the available threads and at most
    // ceil(nTx / MinPerThread) threads, and as many as both limits allow
    ensures nt == 0 ==> k <= Available(hw)
    ensures nt == 0 && nTx > 0 ==> MinPerThread * (k - 1) < nTx
    ensures nt == 0 ==> k == Available(hw) || MinPerThread * k >= nTx
    ensures nt == 0 && 1 <= nTx <= MinPerThread ==> k == 1
  {
    if nt == 0 then
      var maxThreads := (nTx + MinPerThread - 1) / MinPerThread;
      Min(Available(hw), maxThreads)
    else
      if nt < nTx then nt else nTx
  }

  /**
   * The block size, `nTx / k` rounded up: the smallest size such that
   * `k` blocks hold all `nTx` sources.
   */
  function BlockSize(nTx: nat, k: nat): (blk: nat)
    requires k >= 1
    ensures blk * k >= nTx
    ensures blk == 0 || (blk - 1) * k < nTx
    ensures blk <= nTx
  {
    CeilingDivision(nTx, k);
    nTx / k + (if nTx % k != 0 then 1 else 0)
  }

  lemma CeilingDivision(nTx: nat, k: nat)
    requires k >= 1
    ensures var blk := nTx / k + (if nTx % k != 0 then 1 else 0);
      blk * k >= nTx && (blk == 0 || (blk - 1) * k < nTx) && blk <= nTx
  {
    var q := nTx / k;
    var r := nTx % k;
    assert nTx == q * k + r;
    MulMono(1, k, q);
    if r != 0 {
      assert (q + 1) * k == q * k + k;
    } else if q > 0 {
      assert (q - 1) * k == q * k - k;
    }
  }

  /** The range of source indices `[start, end)` given to one thread, and its id. */
  datatype Block = Block(start: nat, end: nat, worker: nat)

  /** Whether source index `n` lies in block `b`'s range. */
  predicate Owns(b: Block, n: int)
  {
    b.start <= n < b.end
  }

  /**
   * The ranges as the driver hands them out, in closed form: worker `i`
   * (for `i < k - 1`) takes `[i*blk, (i+1)*blk)` under id `i + 1`; the
   * calling thread takes what is left, `[(k-1)*blk, nTx)`, under id 0.
   */
  function Plan(k: nat, blk: nat, nTx: nat): (blocks: seq<Block>)
    requires k >= 1
  {
    seq(k, i requires 0 <= i < k =>
      if i < k - 1 then Block(i * blk, (i + 1) * blk, i + 1)
      else Block((k - 1) * blk, nTx, 0))
  }

  /** Source index `n` lies in some block. */
  ghost predicate Covered(blocks: seq<Block>, n: int)
  {
    exists i :: 0 <= i < |blocks| && Owns(blocks[i], n)
  }

  /** Every source index below `nTx` lies in some block. */
  ghost predicate Covers(blocks: seq<Block>, nTx: nat)
  {
    forall n :: 0 <= n < nTx ==> Covered(blocks, n)
  }

  /** No source index lies in two blocks. */
  ghost predicate Disjoint(blocks: seq<Block>)
  {
    forall i, j, n :: 0 <= i < j < |blocks| && Owns(blocks[i], n) ==> !Owns(blocks[j], n)
  }

  /** No block reaches a source index at or beyond `nTx`. */
  ghost predicate InBounds(blocks: seq<Block>, nTx: nat)
  {
    forall i, n :: 0 <= i < |blocks| && Owns(blocks[i], n) ==> n < nTx
  }

  /** The block-assignment loop of the driver (the threaded branch). */
  method AssignBlocks(k: nat, blk: nat, nTx: nat) returns (blocks: seq<Block>)
    requires k >= 1
    ensures blocks == Plan(k, blk, nTx)
  {
    blocks := [];
    var blkStart := 0;
    var i := 0;
    while i < k - 1
      invariant 0 <= i <= k - 1
      invariant blkStart == i * blk
      invariant |blocks| == i
      invariant forall j :: 0 <= j < i ==> blocks[j] == Block(j * blk, (j + 1) * blk, j + 1)
    {
      var blkEnd := blkStart + blk;
      blocks := blocks + [Block(blkStart, blkEnd, i + 1)];
      blkStart := blkEnd;
      i := i + 1;
    }
    blocks := blocks + [Block(blkStart, nTx, 0)];
  }

  lemma MulMono(a: nat, b: nat, c: nat)
    requires a <= b
    ensures a * c <= b * c
  {
  }

  lemma MulCancel(a: nat, b: nat, c: nat)
    requires a * c < b * c
    ensures a < b
  {
    if a >= b {
      MulMono(b, a, c);
    }
  }

  /** Consecutive ranges abut, and worker ids are 1 .. k-1 followed by 0. */
  lemma PlanLayout(k: nat, blk: nat, nTx: nat)
    requires k >= 1
    ensures |Plan(k, blk, nTx)| == k
    ensures Plan(k, blk, nTx)[0].start == 0
    ensures Plan(k, blk, nTx)[k - 1] == Block((k - 1) * blk, nTx, 0)
    ensures forall i :: 0 <= i < k - 1 ==>
      Plan(k, blk, nTx)[i].end == Plan(k, blk, nTx)[i + 1].start &&
      Plan(k, blk, nTx)[i].worker == i + 1 &&
      Plan(k, blk, nTx)[i].end - Plan(k, blk, nTx)[i].start == blk
  {
  }

  /** Whatever `k` and `blk`, the ranges cover `[0, nTx)` and never overlap. */
  lemma {:induction false} PlanCoversOnce(k: nat, blk: nat, nTx: nat)
    requires k >= 1
    ensures Covers(Plan(k, blk, nTx), nTx)
    ensures Disjoint(Plan(k, blk, nTx))
  {
    var p := Plan(k, blk, nTx);
    forall n | 0 <= n < nTx
      ensures Covered(p, n)
    {
      if n < (k - 1) * blk {
        var i := n / blk;
        assert i * blk <= n < (i + 1) * blk;
        MulCancel(i, k - 1, blk);
        assert Owns(p[i], n);
      } else {
        assert Owns(p[k - 1], n);
      }
    }
    forall i, j, n | 0 <= i < j < |p| && Owns(p[i], n)
      ensures !Owns(p[j], n)
    {
      MulMono(i + 1, j, blk);
    }
  }

  /**
   * The ranges stay below `nTx` exactly when the calling thread's range
   * does not start beyond it.
   */
  lemma {:induction false} PlanInBoundsIff(k: nat, blk: nat, nTx: nat)
    requires k >= 1
    ensures InBounds(Plan(k, blk, nTx), nTx) <==> (k - 1) * blk <= nTx
  {
    var p := Plan(k, blk, nTx);
    if (k - 1) * blk <= nTx {
      forall i, n | 0 <= i < |p| && Owns(p[i], n)
        ensures n < nTx
      {
        if i < k - 1 {
          MulMono(i + 1, k - 1, blk);
        }
      }
    } else {
      assert k >= 2 && blk >= 1;
      var n := (k - 1) * blk - 1;
      assert (k - 2) * blk == (k - 1) * blk - blk;
      assert Owns(p[k - 2], n);
      assert !(n < nTx);
    }
  }

  /** Dispatch cannot start: `nTx % num_threads` with no threads. */
  datatype Fault = DivisionByZero

  /**
   * The driver's partition (ttcr2ds.cpp lines 51-62 and 118-182): with a
   * single thread every source runs on the calling thread in order; with
   * more, the blocks of `AssignBlocks`. No sources means no threads, and
   * the block-size division then divides by zero.
   */
  method Schedule(nt: nat, nTx: nat, hw: nat) returns (r: Result<seq<Block>, Fault>)
    ensures r.Failure? <==> nTx == 0
    ensures r.Success? ==> |r.value| == NumThreads(nt, nTx, hw)
    ensures r.Success? ==> r.value == Plan(NumThreads(nt, nTx, hw), BlockSize(nTx, NumThreads(nt, nTx, hw)), nTx)
    ensures r.Success? ==> Covers(r.value, nTx) && Disjoint(r.value)
    ensures r.Success? && NumThreads(nt, nTx, hw) == 1 ==> r.value == [Block(0, nTx, 0)]
  {
    var k := NumThreads(nt, nTx, hw);
    if k == 0 {
      return Failure(DivisionByZero);
    }
    var blk := BlockSize(nTx, k);
    PlanCoversOnce(k, blk, nTx);
    if k == 1 {
      // the sequential loop: no thread is created
      r := Success([Block(0, nTx, 0)]);
      assert blk == nTx;
      assert r.value == Plan(k, blk, nTx);
    } else {
      var blocks := AssignBlocks(k, blk, nTx);
      r := Success(blocks);
    }
  }

  /** Automatic mode, 23 sources and 8 hardware threads: four workers of 5, the caller 20..22. */
  lemma TwentyThreeSourcesEightThreads()
    ensures NumThreads(0, 23, 8) == 5 && BlockSize(23, 5) == 5
    ensures Plan(5, 5, 23) == [Block(0, 5, 1), Block(5, 10, 2), Block(10, 15, 3), Block(15, 20, 4), Block(20, 23, 0)]
    ensures InBounds(Plan(5, 5, 23), 23)
  {
    PlanInBoundsIff(5, 5, 23);
  }

  /** Explicit mode, 7 threads for 10 sources: the sixth worker is given `[10, 12)`. */
  lemma ExplicitModeOverrun()
    ensures NumThreads(7, 10, 0) == 7 && BlockSize(10, 7) == 2
    ensures Plan(7, 2, 10)[5] == Block(10, 12, 6)
    ensures !InBounds(Plan(7, 2, 10), 10)
  {
    assert Owns(Plan(7, 2, 10)[5], 10);
  }

  /** Automatic mode, 81 sources and 16 hardware threads: workers reach index 89. */
  lemma AutoModeOverrun()
    ensures NumThreads(0, 81, 16) == 16 && BlockSize(81, 16) == 6
    ensures Plan(16, 6, 81)[14] == Block(84, 90, 15)
    ensures !InBounds(Plan(16, 6, 81), 81)
  {
    assert Owns(Plan(16, 6, 81)[14], 89);
  }

  /** The partition with every range end clamped to `nTx`. */
  function ClampedPlan(k: nat, blk: nat, nTx: nat): (blocks: seq<Block>)
    requires k >= 1
  {
    seq(k, i requires 0 <= i < k =>
      if i < k - 1 then Block(Min(i * blk, nTx), Min((i + 1) * blk, nTx), i + 1)
      else Block(Min((k - 1) * blk, nTx), nTx, 0))
  }

  /** Clamped ranges cover `[0, nTx)` exactly once and stay in bounds, for any `k` and `blk`. */
  lemma {:induction false} ClampedPlanExact(k: nat, blk: nat, nTx: nat)
    requires k >= 1
    ensures Covers(ClampedPlan(k, blk, nTx), nTx)
    ensures Disjoint(ClampedPlan(k, blk, nTx))
    ensures InBounds(ClampedPlan(k, blk, nTx), nTx)
  {
    var p := ClampedPlan(k, blk, nTx);
    var q := Plan(k, blk, nTx);
    PlanCoversOnce(k, blk, nTx);
    forall i, n | 0 <= i < k && Owns(p[i], n)
      ensures Owns(q[i], n) && n < nTx
    {
    }
    forall n | 0 <= n < nTx
      ensures Covered(p, n)
    {
      assert Covered(q, n);
      var i :| 0 <= i < |q| && Owns(q[i], n);
      assert Owns(p[i], n);
    }
  }

  /** Where the source's partition is in bounds, clamping changes nothing. */
  lemma {:induction false} ClampedPlanAgrees(k: nat, blk: nat, nTx: nat)
    requires k >= 1
    requires (k - 1) * blk <= nTx
    ensures ClampedPlan(k, blk, nTx) == Plan(k, blk, nTx)
  {
    var p := ClampedPlan(k, blk, nTx);
    var q := Plan(k, blk, nTx);
    forall i | 0 <= i < k
      ensures p[i] == q[i]
    {
      if i < k - 1 {
        MulMono(i + 1, k - 1, blk);
        MulMono(i, k - 1, blk);
      }
    }
  }
}
