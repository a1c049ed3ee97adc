// Sums over sequences of integers, and over a sequence read at a list of
// indices. These are the reference definitions the summing loops of the
// program are proved against. Integers are mathematical: the `long`
// accumulators of the program are assumed not to overflow.
module Sums {

  /** The sum of s, accumulated from the first element to the last. */
  function Sum(s: seq<int>): (r: int)
  {
    if s == [] then 0 else Sum(s[..|s| - 1]) + s[|s| - 1]
  }

  /** Summing a concatenation sums the two parts. */
  lemma {:induction false} SumAppend(s: seq<int>, t: seq<int>)
    ensures Sum(s + t) == Sum(s) + Sum(t)
  {
    if t == [] {
      assert s + t == s;
    } else {
      assert (s + t)[..|s + t| - 1] == s + t[..|t| - 1];
      SumAppend(s, t[..|t| - 1]);
    }
  }

  /** Every element between lo and hi gives lo * |s| <= Sum(s) <= hi * |s|. */
  lemma {:induction false} SumBounds(s: seq<int>, lo: int, hi: int)
    requires forall k :: 0 <= k < |s| ==> lo <= s[k] <= hi
    ensures lo * |s| <= Sum(s) <= hi * |s|
  {
    if s != [] {
      SumBounds(s[..|s| - 1], lo, hi);
    }
  }

  /** The integers lo, lo + 1, ..., hi - 1 in increasing order; empty when hi <= lo. */
  function Span(lo: int, hi: int): (r: seq<int>)
    ensures |r| == if hi <= lo then 0 else hi - lo
    decreases hi - lo
  {
    if hi <= lo then [] else Span(lo, hi - 1) + [hi - 1]
  }

  /** Extending a span by one adds its new upper element. */
  lemma SpanStep(lo: int, hi: int)
    requires lo <= hi
    ensures multiset(Span(lo, hi + 1)) == multiset(Span(lo, hi)) + multiset{hi}
  {
  }

  /** Every integer occurs in a span once if it lies in [lo, hi), and otherwise not at all. */
  lemma SpanCount(lo: int, hi: int, k: int)
    ensures multiset(Span(lo, hi))[k] == if lo <= k < hi then 1 else 0
    decreases hi - lo
  {
    if lo < hi {
      SpanCount(lo, hi - 1, k);
      assert Span(lo, hi) == Span(lo, hi - 1) + [hi - 1];
    }
  }

  /** Indices that all lie inside a sequence of length n. */
  ghost predicate IndicesBelow(idx: seq<int>, n: int)
  {
    forall t :: 0 <= t < |idx| ==> 0 <= idx[t] < n
  }

  /**
   * The element at index x, or 0 for an index outside the sequence. The
   * traversals of the program never read outside their array (StridedScan
   * proves the indices lie in the block), so the 0 never contributes.
   */
  function Read(a: seq<int>, x: int): (r: int)
  {
    if 0 <= x < |a| then a[x] else 0
  }

  /** The sum of a read at the indices idx, in the order idx lists them. */
  function SumAt(a: seq<int>, idx: seq<int>): (r: int)
  {
    if idx == [] then 0 else SumAt(a, idx[..|idx| - 1]) + Read(a, idx[|idx| - 1])
  }

  /** Reading at a concatenation of index lists sums the two readings. */
  lemma {:induction false} SumAtAppend(a: seq<int>, xs: seq<int>, ys: seq<int>)
    ensures SumAt(a, xs + ys) == SumAt(a, xs) + SumAt(a, ys)
  {
    if ys != [] {
      var zs := xs + ys;
      assert zs[..|zs| - 1] == xs + ys[..|ys| - 1];
      assert zs[|zs| - 1] == ys[|ys| - 1];
      SumAtAppend(a, xs, ys[..|ys| - 1]);
    } else {
      assert xs + ys == xs;
    }
  }

  /** Taking out the element at position p removes one occurrence of it. */
  lemma MultisetRemoveAt(ys: seq<int>, p: nat)
    requires p < |ys|
    ensures multiset(ys[..p] + ys[p + 1..]) == multiset(ys) - multiset{ys[p]}
  {
    assert ys == ys[..p] + [ys[p]] + ys[p + 1..];
  }

  /** Taking out the index at position p removes its one reading from the sum. */
  lemma SumAtRemoveAt(a: seq<int>, ys: seq<int>, p: nat)
    requires p < |ys|
    ensures SumAt(a, ys) == SumAt(a, ys[..p] + ys[p + 1..]) + Read(a, ys[p])
  {
    var x, front, back := ys[p], ys[..p], ys[p + 1..];
    assert SumAt(a, [x]) == SumAt(a, []) + Read(a, x);
    SumAtAppend(a, front, [x]);
    SumAtAppend(a, front + [x], back);
    SumAtAppend(a, front, back);
    assert ys == front + [x] + back;
  }

  /**
   * The order in which indices are read does not change the sum: two index
   * lists that visit every index equally often give the same total.
   */
  lemma {:induction false} SumAtPermutation(a: seq<int>, xs: seq<int>, ys: seq<int>)
    requires multiset(xs) == multiset(ys)
    ensures SumAt(a, xs) == SumAt(a, ys)
    decreases |xs|
  {
    if xs == [] {
      assert |ys| == |multiset(ys)| == 0;
    } else {
      var n := |xs| - 1;
      var x := xs[n];
      assert xs == xs[..n] + [x];
      assert multiset(xs[..n]) == multiset(xs) - multiset{x};
      assert x in multiset(ys);
      var p :| 0 <= p < |ys| && ys[p] == x;
      MultisetRemoveAt(ys, p);
      SumAtRemoveAt(a, ys, p);
      SumAtPermutation(a, xs[..n], ys[..p] + ys[p + 1..]);
    }
  }

  /** Reading a span of indices inside the sequence sums the corresponding slice. */
  lemma {:induction false} SumAtSpan(a: seq<int>, lo: nat, hi: nat)
    requires lo <= hi <= |a|
    ensures SumAt(a, Span(lo, hi)) == Sum(a[lo..hi])
    decreases hi - lo
  {
    if lo < hi {
      SumAtSpan(a, lo, hi - 1);
      assert Span(lo, hi)[..hi - 1 - lo] == Span(lo, hi - 1);
      assert a[lo..hi][..hi - 1 - lo] == a[lo..hi - 1];
    }
  }
}
