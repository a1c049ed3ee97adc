// The order in which the nested loops of sumBlock (pthreads-timing.c:89-93)
// visit the indices of a block. Pass i starts at minIdx + i and moves by
// step while it stays at or below maxIdx; there are step passes. The
// central fact is that the passes together visit every index of the block
// exactly once, whatever the step, so the step changes only the order of
// the reads and never their total.
module StridedScan {
  import opened Sums

  /** The indices one pass of the inner loop visits: start, start + step, ... up to maxIdx. */
  function PassIndices(start: int, maxIdx: int, step: nat): (r: seq<int>)
    requires step >= 1
    decreases maxIdx - start
  {
    if start > maxIdx then [] else [start] + PassIndices(start + step, maxIdx, step)
  }

  /** The indices visited by the first `passes` passes of the outer loop, in visiting order. */
  function Visits(minIdx: int, maxIdx: int, step: nat, passes: nat): (r: seq<int>)
    requires step >= 1
  {
    if passes == 0 then []
    else Visits(minIdx, maxIdx, step, passes - 1) + PassIndices(minIdx + passes - 1, maxIdx, step)
  }

  /** Every index a pass visits lies between its start and maxIdx. */
  lemma {:induction false} PassWithin(start: int, maxIdx: int, step: nat)
    requires step >= 1
    ensures forall t :: 0 <= t < |PassIndices(start, maxIdx, step)| ==>
      start <= PassIndices(start, maxIdx, step)[t] <= maxIdx
    decreases maxIdx - start
  {
    if start <= maxIdx {
      PassWithin(start + step, maxIdx, step);
    }
  }

  /** Every index the passes visit lies in the block [minIdx, maxIdx]. */
  lemma {:induction false} VisitsWithin(minIdx: int, maxIdx: int, step: nat, passes: nat)
    requires step >= 1
    ensures forall t :: 0 <= t < |Visits(minIdx, maxIdx, step, passes)| ==>
      minIdx <= Visits(minIdx, maxIdx, step, passes)[t] <= maxIdx
  {
    if passes > 0 {
      VisitsWithin(minIdx, maxIdx, step, passes - 1);
      PassWithin(minIdx + passes - 1, maxIdx, step);
    }
  }

  function Min(x: int, y: int): (r: int)
  {
    if x <= y then x else y
  }

  /** A block that starts after it ends is not visited at all. */
  lemma {:induction false} VisitsEmpty(minIdx: int, maxIdx: int, step: nat, passes: nat)
    requires step >= 1 && minIdx > maxIdx
    ensures Visits(minIdx, maxIdx, step, passes) == []
  {
    if passes > 0 {
      VisitsEmpty(minIdx, maxIdx, step, passes - 1);
    }
  }

  /** One more pass adds the indices of that pass. */
  lemma VisitsStep(minIdx: int, maxIdx: int, step: nat, p: nat)
    requires 1 <= step
    ensures multiset(Visits(minIdx, maxIdx, step, p + 1))
         == multiset(Visits(minIdx, maxIdx, step, p)) + multiset(PassIndices(minIdx + p, maxIdx, step))
  {
  }

  /** A pass that starts inside the block visits its start, then continues one step on. */
  lemma PassPeel(start: int, maxIdx: int, step: nat)
    requires 1 <= step && start <= maxIdx
    ensures multiset(PassIndices(start, maxIdx, step))
         == multiset{start} + multiset(PassIndices(start + step, maxIdx, step))
  {
  }

  /**
   * The first index of each of the first `passes` passes is minIdx + p; what
   * the passes visit after that is the same traversal of the block that starts
   * one step further on.
   */
  ghost predicate PeelsTo(minIdx: int, maxIdx: int, step: nat, passes: nat)
    requires 1 <= step
  {
    multiset(Visits(minIdx, maxIdx, step, passes))
      == multiset(Span(minIdx, Min(minIdx + passes, maxIdx + 1)))
       + multiset(Visits(minIdx + step, maxIdx, step, passes))
  }

  /** A pass that starts inside the block adds its start to the heads. */
  lemma PeelInside(minIdx: int, maxIdx: int, step: nat, p: nat)
    requires 1 <= step && p < step && minIdx + p <= maxIdx
    requires PeelsTo(minIdx, maxIdx, step, p)
    ensures PeelsTo(minIdx, maxIdx, step, p + 1)
  {
    assert multiset(Visits(minIdx, maxIdx, step, p))
        == multiset(Span(minIdx, minIdx + p)) + multiset(Visits(minIdx + step, maxIdx, step, p));
    PeelInsideStep(minIdx, maxIdx, step, p);
    assert Min(minIdx + p + 1, maxIdx + 1) == minIdx + p + 1;
  }

  lemma PeelInsideStep(minIdx: int, maxIdx: int, step: nat, p: nat)
    requires 1 <= step && p < step && minIdx + p <= maxIdx
    requires multiset(Visits(minIdx, maxIdx, step, p))
          == multiset(Span(minIdx, minIdx + p)) + multiset(Visits(minIdx + step, maxIdx, step, p))
    ensures multiset(Visits(minIdx, maxIdx, step, p + 1))
         == multiset(Span(minIdx, minIdx + p + 1)) + multiset(Visits(minIdx + step, maxIdx, step, p + 1))
  {
    VisitsStep(minIdx, maxIdx, step, p);
    VisitsStep(minIdx + step, maxIdx, step, p);
    PassPeel(minIdx + p, maxIdx, step);
    SpanStep(minIdx, minIdx + p);
  }

  /** A pass that starts past the block adds nothing, here or one step further on. */
  lemma PeelBeyond(minIdx: int, maxIdx: int, step: nat, p: nat)
    requires 1 <= step && p < step && minIdx + p > maxIdx
    requires PeelsTo(minIdx, maxIdx, step, p)
    ensures PeelsTo(minIdx, maxIdx, step, p + 1)
  {
    VisitsStep(minIdx, maxIdx, step, p);
    VisitsStep(minIdx + step, maxIdx, step, p);
    assert PassIndices(minIdx + p, maxIdx, step) == [];
    assert PassIndices(minIdx + step + p, maxIdx, step) == [];
  }

  /** The peeling holds for every number of passes up to the step. */
  lemma {:induction false} VisitsPeel(minIdx: int, maxIdx: int, step: nat, passes: nat)
    requires 1 <= step && passes <= step
    ensures PeelsTo(minIdx, maxIdx, step, passes)
  {
    if passes > 0 {
      var p := passes - 1;
      VisitsPeel(minIdx, maxIdx, step, p);
      if minIdx + p <= maxIdx {
        PeelInside(minIdx, maxIdx, step, p);
      } else {
        PeelBeyond(minIdx, maxIdx, step, p);
      }
    }
  }

  /**
   * Coverage: for every step of at least one, the step passes over
   * [minIdx, maxIdx] visit each index of the block exactly once and no
   * other index at all.
   */
  lemma {:induction false} VisitedExactlyOnce(minIdx: int, maxIdx: int, step: nat, k: int)
    requires step >= 1
    ensures multiset(Visits(minIdx, maxIdx, step, step))[k] == if minIdx <= k <= maxIdx then 1 else 0
    decreases maxIdx - minIdx + 1
  {
    if minIdx > maxIdx {
      VisitsEmpty(minIdx, maxIdx, step, step);
    } else {
      VisitsPeel(minIdx, maxIdx, step, step);
      SpanCount(minIdx, Min(minIdx + step, maxIdx + 1), k);
      if minIdx + step <= maxIdx {
        VisitedExactlyOnce(minIdx + step, maxIdx, step, k);
      } else {
        VisitsEmpty(minIdx + step, maxIdx, step, step);
      }
    }
  }

  /** The visits are a rearrangement of the indices of the block. */
  lemma VisitsPermuteBlock(minIdx: int, maxIdx: int, step: nat)
    requires step >= 1
    ensures multiset(Visits(minIdx, maxIdx, step, step)) == multiset(Span(minIdx, maxIdx + 1))
  {
    forall k
      ensures multiset(Visits(minIdx, maxIdx, step, step))[k] == multiset(Span(minIdx, maxIdx + 1))[k]
    {
      VisitedExactlyOnce(minIdx, maxIdx, step, k);
      SpanCount(minIdx, maxIdx + 1, k);
    }
  }

  /** One more pass adds the sum of what that pass reads. */
  lemma SumAtVisitsStep(a: seq<int>, minIdx: int, maxIdx: int, step: nat, i: nat)
    requires step >= 1
    ensures SumAt(a, Visits(minIdx, maxIdx, step, i + 1))
         == SumAt(a, Visits(minIdx, maxIdx, step, i)) + SumAt(a, PassIndices(minIdx + i, maxIdx, step))
  {
    SumAtAppend(a, Visits(minIdx, maxIdx, step, i), PassIndices(minIdx + i, maxIdx, step));
  }

  /** A pass that starts inside the block reads its start, then goes on one step further. */
  lemma SumAtPassStep(a: seq<int>, j: nat, maxIdx: int, step: nat)
    requires step >= 1 && j <= maxIdx < |a|
    ensures SumAt(a, PassIndices(j, maxIdx, step)) == a[j] + SumAt(a, PassIndices(j + step, maxIdx, step))
  {
    var later := PassIndices(j + step, maxIdx, step);
    assert PassIndices(j, maxIdx, step) == [j] + later;
    assert SumAt(a, [j]) == SumAt(a, []) + Read(a, j);
    SumAtAppend(a, [j], later);
  }

  /**
   * Stride invariance: the strided traversal of a block inside the array
   * reads only indices of the array and sums to the plain sum of the block,
   * for every step of at least one, including steps larger than the block.
   */
  lemma StridedSumIsBlockSum(a: seq<int>, minIdx: nat, maxIdx: nat, step: nat)
    requires step >= 1 && minIdx <= maxIdx < |a|
    ensures IndicesBelow(Visits(minIdx, maxIdx, step, step), |a|)
    ensures SumAt(a, Visits(minIdx, maxIdx, step, step)) == Sum(a[minIdx..maxIdx + 1])
  {
    VisitsWithin(minIdx, maxIdx, step, step);
    VisitsPermuteBlock(minIdx, maxIdx, step);
    SumAtSpan(a, minIdx, maxIdx + 1);
    SumAtPermutation(a, Visits(minIdx, maxIdx, step, step), Span(minIdx, maxIdx + 1));
  }
}
