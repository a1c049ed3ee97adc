// The rest of main in pthreads-timing.c once the arguments are accepted:
// allocate the slot and descriptor arrays, fill the array, and sum it. The
// values rand() would return in mode 1 are a parameter.
module Program {
  import opened Sums
  import opened Summation
  import opened Arguments

  /** In every mode but 1 the first n values are 0, 1, ..., n - 1, whose sum, doubled, is n * (n - 1). */
  lemma {:induction false} Triangular(mode: int, draws: seq<nat>, n: nat)
    requires mode != 1
    ensures 2 * Sum(Initials(mode, draws, n)) == n * (n - 1)
  {
    if n > 0 {
      InitialsPrefix(mode, draws, n, n - 1);
      Triangular(mode, draws, n - 1);
    }
  }

  /** Random-mode elements lie in [MinVal, MaxVal), so n of them sum into [MinVal * n, (MaxVal - 1) * n]. */
  lemma RandomSumBounds(draws: seq<nat>, n: nat)
    requires n <= |draws|
    ensures MinVal * n <= Sum(Initials(1, draws, n)) <= (MaxVal - 1) * n
  {
    SumBounds(Initials(1, draws, n), MinVal, MaxVal - 1);
  }

  /**
   * main after argument processing, with its worker threads run in block
   * order: the sum is that of the first numBlocks * (arraySize / numBlocks)
   * initial values when the step is positive and 0 when it is 0. In mode 0
   * this is the triangular number of that count.
   */
  method Run(cfg: Config, draws: seq<nat>) returns (sum: int)
    requires ValidConfig(cfg) && 1 <= cfg.numBlocks <= cfg.arraySize
    requires cfg.mode == 1 ==> cfg.arraySize <= |draws|
    ensures var n := cfg.numBlocks * (cfg.arraySize / cfg.numBlocks);
      && n <= cfg.arraySize
      && sum == (if cfg.stepSize == 0 then 0 else Sum(Initials(cfg.mode, draws, n)))
    ensures var n := cfg.numBlocks * (cfg.arraySize / cfg.numBlocks);
      cfg.stepSize >= 1 && cfg.mode == 0 ==> 2 * sum == n * (n - 1)
    ensures var n := cfg.numBlocks * (cfg.arraySize / cfg.numBlocks);
      cfg.stepSize >= 1 && cfg.mode == 1 ==> MinVal * n <= sum <= (MaxVal - 1) * n
  {
    var size, numBlocks, step := cfg.arraySize, cfg.numBlocks, cfg.stepSize;
    var arr := InitArray(size, cfg.mode, draws);
    var blockSums := new int[numBlocks];
    var dataBlocks := new BlockData[numBlocks](_ => BlockData(arr, 0, 0, 0, 0, 0, 0));
    sum := SumArray(arr, size, numBlocks, step, blockSums, dataBlocks);
    var n := numBlocks * (size / numBlocks);
    BlockSizeFacts(size, numBlocks);
    InitialsPrefix(cfg.mode, draws, size, n);
    assert arr[..n] == Initials(cfg.mode, draws, n);
    if step >= 1 {
      if cfg.mode == 0 {
        Triangular(0, draws, n);
      } else if cfg.mode == 1 {
        RandomSumBounds(draws, n);
      }
    }
  }

  /**
   * Size 8 in 2 blocks with step 1: the slots receive the block totals 6
   * and 22, and reducing them gives 28, the sum of the whole array.
   */
  lemma EightInTwoBlocks()
    ensures Totals(Initials(0, [], 8), 4, 1, 2) == [6, 22]
    ensures Sum(Totals(Initials(0, [], 8), 4, 1, 2)) == 28
  {
    var a := Initials(0, [], 8);
    InitialsPrefix(0, [], 8, 4);
    Triangular(0, [], 4);
    Triangular(0, [], 8);
    assert a[0..4] == a[..4] && a == a[..4] + a[4..8];
    SumAppend(a[..4], a[4..8]);
    TotalsAt(a, 4, 1, 2, 0);
    TotalsAt(a, 4, 1, 2, 1);
    ReduceTotals(a, 4, 1, 2);
    assert a[..8] == a;
  }

  /**
   * Size 10 in 3 blocks: the blocks are [0, 2], [3, 5] and [6, 8], index 9
   * lies in none of them, and in mode 0 the sum is 36 rather than 45.
   */
  lemma TenInThreeBlocks(arr: array<int>)
    ensures forall i :: 0 <= i < 3 ==> Descriptor(arr, 10, 3, 1, i).minIdx == 3 * i
    ensures forall i :: 0 <= i < 3 ==> Descriptor(arr, 10, 3, 1, i).maxIdx == 3 * i + 2
    ensures forall i :: 0 <= i < 3 ==> !(Descriptor(arr, 10, 3, 1, i).minIdx <= 9 <= Descriptor(arr, 10, 3, 1, i).maxIdx)
    ensures 2 * Sum(Initials(0, [], 3 * (10 / 3))) == 72
    ensures 2 * Sum(Initials(0, [], 10)) == 90
  {
    forall i | 0 <= i < 3
      ensures !(Descriptor(arr, 10, 3, 1, i).minIdx <= 9 <= Descriptor(arr, 10, 3, 1, i).maxIdx)
    {
      PartitionCovers(arr, 10, 3, 1, i, 9);
    }
    Triangular(0, [], 9);
    Triangular(0, [], 10);
  }

  /** The defaults and an accepted "-b 0 -p 0": neither zero is rejected. */
  lemma ArgumentExamples()
    ensures ParseArgs([Arg("prog", 0)]) == Proceed(Defaults)
    ensures ParseArgs([Arg("prog", 0), Arg("-b", 0), Arg("0", 0), Arg("-p", 0), Arg("0", 0)])
         == Proceed(Config(10000, 0, 0, 0, None))
    ensures ParseArgs([Arg("prog", 0), Arg("-x", 0), Arg("1", 1), Arg("-b", 0), Arg("-1", -1)]) == Exit(5)
    ensures ParseArgs([Arg("prog", 0), Arg("-b", 0), Arg("4", 4), Arg("-b", 0), Arg("2", 2)])
         == Proceed(Config(10000, 0, 2, 1, None))
    ensures ParseArgs([Arg("prog", 0), Arg("-m", 0)]) == Exit(1)
  {
    var p2 := Pairs([Arg("prog", 0), Arg("-b", 0), Arg("0", 0), Arg("-p", 0), Arg("0", 0)]);
    assert p2 == [Pair("-b", 0), Pair("-p", 0)];
    assert p2[..1] == [Pair("-b", 0)];
    var p3 := Pairs([Arg("prog", 0), Arg("-x", 0), Arg("1", 1), Arg("-b", 0), Arg("-1", -1)]);
    assert p3 == [Pair("-x", 1), Pair("-b", -1)];
    assert p3[..1] == [Pair("-x", 1)];
    var p4 := Pairs([Arg("prog", 0), Arg("-b", 0), Arg("4", 4), Arg("-b", 0), Arg("2", 2)]);
    assert p4 == [Pair("-b", 4), Pair("-b", 2)];
    assert p4[..1] == [Pair("-b", 4)];
  }
}
