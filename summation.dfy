// The partition-compute-reduce engine of pthreads-timing.c: the array
// initialisation (initArray), the worker (sumBlock), the reduction
// (sumBlocks) and the coordinator (sumArray). The program's global arrays
// blockSums and dataBlocks are passed to the methods as arrays. The worker
// threads run one after the other: each worker only reads the shared array
// and writes its own slot, so running them in block order gives the slots
// the values the spawned threads give them.
module Summation {
  import opened Sums
  import opened StridedScan

  /** MIN_VAL and MAX_VAL: random values lie in [MinVal, MaxVal). */
  const MinVal: int := -1000
  const MaxVal: int := 1000

  /**
   * struct BlockData, the argument a worker receives: the shared array, the
   * block size, the inclusive index range, the block count, the step and the
   * worker's own slot number.
   */
  datatype BlockData = BlockData(
    arr: array<int>,
    blockSize: nat,
    minIdx: nat,
    maxIdx: nat,
    numBlocks: nat,
    step: nat,
    currBlock: nat)

  /** The value initArray gives element i: a draw mapped into [MinVal, MaxVal) in mode 1, else i. */
  function Initial(mode: int, draws: seq<nat>, i: nat): (r: int)
    requires mode == 1 ==> i < |draws|
  {
    if mode == 1 then draws[i] % (MaxVal * 2) + MinVal else i
  }

  /** The first n initial values. */
  function Initials(mode: int, draws: seq<nat>, n: nat): (r: seq<int>)
    requires mode == 1 ==> n <= |draws|
    ensures |r| == n
    ensures forall i :: 0 <= i < n ==> r[i] == Initial(mode, draws, i)
  {
    seq(n, i requires 0 <= i < n => Initial(mode, draws, i))
  }

  /** The initial values of a shorter array are a prefix of those of a longer one. */
  lemma InitialsPrefix(mode: int, draws: seq<nat>, n: nat, m: nat)
    requires m <= n && (mode == 1 ==> n <= |draws|)
    ensures Initials(mode, draws, n)[..m] == Initials(mode, draws, m)
  {
  }

  /**
   * initArray: in mode 1 element i is draws[i] % 2000 - 1000, where draws[i]
   * is the i-th value rand() returns, and lies in [MinVal, MaxVal); in every
   * other mode element i is i.
   */
  method InitArray(size: nat, mode: int, draws: seq<nat>) returns (arr: array<int>)
    requires mode == 1 ==> size <= |draws|
    ensures fresh(arr) && arr[..] == Initials(mode, draws, size)
    ensures mode != 1 ==> forall i :: 0 <= i < size ==> arr[i] == i
    ensures mode == 1 ==> forall i :: 0 <= i < size ==> MinVal <= arr[i] < MaxVal
  {
    arr := new int[size];
    var i := 0;
    if mode == 1 {
      while i != size
        invariant 0 <= i <= size
        invariant forall k :: 0 <= k < i ==> arr[k] == draws[k] % (MaxVal * 2) + MinVal
      {
        arr[i] := draws[i] % (MaxVal * 2) + MinVal;
        i := i + 1;
      }
    } else {
      while i != size
        invariant 0 <= i <= size
        invariant forall k :: 0 <= k < i ==> arr[k] == k
      {
        arr[i] := i;
        i := i + 1;
      }
    }
  }

  /**
   * sumBlocks: the slots 0 .. numBlocks - 1 added in index order; 0 when
   * there are no blocks.
   */
  method SumBlocks(blockSums: array<int>, numBlocks: nat) returns (sum: int)
    requires numBlocks <= blockSums.Length
    ensures sum == Sum(blockSums[..numBlocks])
  {
    sum := 0;
    var i := 0;
    while i != numBlocks
      invariant 0 <= i <= numBlocks
      invariant sum == Sum(blockSums[..i])
    {
      assert blockSums[..i + 1][..i] == blockSums[..i];
      sum := sum + blockSums[i];
      i := i + 1;
    }
  }

  /**
   * sumBlock: step passes over the block, pass i reading minIdx + i,
   * minIdx + i + step, ... up to maxIdx, accumulated into a local sum that
   * is then stored in the worker's own slot. With step 0 no pass runs and
   * the slot receives 0. No other slot and no element of the array changes.
   */
  method SumBlock(bd: BlockData, blockSums: array<int>)
    requires bd.currBlock < blockSums.Length
    requires bd.arr != blockSums
    requires bd.step >= 1 && bd.minIdx <= bd.maxIdx ==> bd.maxIdx < bd.arr.Length
    modifies blockSums
    ensures bd.step == 0 ==> blockSums[bd.currBlock] == 0
    ensures bd.step >= 1 && bd.minIdx <= bd.maxIdx ==>
      blockSums[bd.currBlock] == Sum(bd.arr[bd.minIdx..bd.maxIdx + 1])
    ensures bd.step >= 1 && bd.minIdx > bd.maxIdx ==> blockSums[bd.currBlock] == 0
    ensures blockSums[..bd.currBlock] == old(blockSums[..bd.currBlock])
    ensures blockSums[bd.currBlock + 1..] == old(blockSums[bd.currBlock + 1..])
  {
    var arr, minIdx, maxIdx, step := bd.arr, bd.minIdx, bd.maxIdx, bd.step;
    ghost var a := arr[..];
    var sum := 0;
    var i := 0;
    while i != step
      invariant 0 <= i <= step
      modifies {}
      invariant step == 0 ==> sum == 0
      invariant step >= 1 ==> sum == SumAt(a, Visits(minIdx, maxIdx, step, i))
    {
      ghost var goal := sum + SumAt(a, PassIndices(minIdx + i, maxIdx, step));
      var j: int := minIdx + i;
      while j <= maxIdx
        invariant minIdx + i <= j
        invariant sum + SumAt(a, PassIndices(j, maxIdx, step)) == goal
        decreases maxIdx - j
      {
        SumAtPassStep(a, j, maxIdx, step);
        sum := sum + arr[j];
        j := j + step;
      }
      SumAtVisitsStep(a, minIdx, maxIdx, step, i);
      i := i + 1;
    }
    blockSums[bd.currBlock] := sum;
    if bd.step >= 1 {
      if bd.minIdx <= bd.maxIdx {
        StridedSumIsBlockSum(a, bd.minIdx, bd.maxIdx, bd.step);
      } else {
        VisitsEmpty(bd.minIdx, bd.maxIdx, bd.step, bd.step);
      }
    }
  }

  /** Multiplying by a non-negative factor keeps the order. */
  lemma MulMono(c: nat, x: int, y: int)
    requires x <= y
    ensures c * x <= c * y
  {
    assert c * y - c * x == c * (y - x);
  }

  /**
   * With 1 <= numBlocks <= size the block size is at least one, the blocks
   * together cover numBlocks * blockSize <= size elements and fewer than
   * numBlocks elements are left over at the end.
   */
  lemma BlockSizeFacts(size: nat, numBlocks: nat)
    requires 1 <= numBlocks <= size
    ensures 1 <= size / numBlocks
    ensures numBlocks * (size / numBlocks) <= size < numBlocks * (size / numBlocks) + numBlocks
  {
    var bs, r := size / numBlocks, size % numBlocks;
    assert size == numBlocks * bs + r;
  }

  /** Block i of the partition ends inside the array. */
  lemma BlockFits(size: nat, numBlocks: nat, i: nat)
    requires 1 <= numBlocks <= size && i < numBlocks
    ensures (size / numBlocks) * i + size / numBlocks <= numBlocks * (size / numBlocks) <= size
  {
    var bs := size / numBlocks;
    BlockSizeFacts(size, numBlocks);
    MulMono(bs, i + 1, numBlocks);
  }

  /**
   * The descriptor sumArray fills in for block i: blockSize = size / numBlocks
   * (floor division), the inclusive range [i * blockSize, i * blockSize +
   * blockSize - 1], and currBlock = i.
   */
  function Descriptor(arr: array<int>, size: nat, numBlocks: nat, step: nat, i: nat): (r: BlockData)
    requires 1 <= numBlocks <= size
  {
    var blockSize := size / numBlocks;
    var minIdx := blockSize * i;
    BlockData(arr, blockSize, minIdx, minIdx + (blockSize - 1), numBlocks, step, i)
  }

  /**
   * Partition shape: each block has blockSize elements and ends inside the
   * array, and consecutive blocks are adjacent, block i + 1 starting right
   * after block i ends.
   */
  lemma PartitionShape(arr: array<int>, size: nat, numBlocks: nat, step: nat, i: nat)
    requires 1 <= numBlocks <= size && i < numBlocks
    ensures var d := Descriptor(arr, size, numBlocks, step, i);
      && d.blockSize >= 1
      && d.maxIdx - d.minIdx + 1 == d.blockSize
      && d.maxIdx < size
      && d.currBlock == i
      && d.arr == arr && d.step == step && d.numBlocks == numBlocks
    ensures i + 1 < numBlocks ==>
      Descriptor(arr, size, numBlocks, step, i + 1).minIdx == Descriptor(arr, size, numBlocks, step, i).maxIdx + 1
  {
    BlockSizeFacts(size, numBlocks);
    BlockFits(size, numBlocks, i);
  }

  /**
   * Division pins down the block of an index: bs * i <= k < bs * i + bs
   * holds exactly when k / bs == i.
   */
  lemma DivBlock(k: nat, bs: nat, i: nat)
    requires bs >= 1
    ensures bs * i <= k < bs * i + bs <==> k / bs == i
  {
    var q, r := k / bs, k % bs;
    assert k == bs * q + r && 0 <= r < bs;
    if q < i {
      MulMono(bs, q + 1, i);
    } else if q > i {
      MulMono(bs, i + 1, q);
    }
  }

  /**
   * Coverage of the partition: index k lies in block i exactly when k is
   * below numBlocks * blockSize and i == k / blockSize. So every index
   * below numBlocks * blockSize lies in exactly one block, and the
   * remainder indices numBlocks * blockSize .. size - 1 lie in none.
   */
  lemma PartitionCovers(arr: array<int>, size: nat, numBlocks: nat, step: nat, i: nat, k: nat)
    requires 1 <= numBlocks <= size && i < numBlocks
    ensures var d := Descriptor(arr, size, numBlocks, step, i);
      d.minIdx <= k <= d.maxIdx <==>
        k < numBlocks * (size / numBlocks) && k / (size / numBlocks) == i
  {
    var bs := size / numBlocks;
    BlockSizeFacts(size, numBlocks);
    BlockFits(size, numBlocks, i);
    DivBlock(k, bs, i);
    if k < numBlocks * bs {
      if k / bs >= numBlocks {
        DivBlock(k, bs, k / bs);
        MulMono(bs, numBlocks, k / bs);
      }
    }
  }

  /**
   * What the worker for block i stores in its slot: 0 when step is 0, and
   * otherwise the plain sum of the block's elements.
   */
  function BlockTotal(a: seq<int>, blockSize: nat, step: nat, i: nat): (r: int)
    requires blockSize * i + blockSize <= |a|
  {
    if step == 0 then 0 else Sum(a[blockSize * i .. blockSize * i + blockSize])
  }

  /** Multiplication distributes over a successor. */
  lemma MulSucc(c: nat, n: nat)
    ensures c * n + c == c * (n + 1)
  {
  }

  /** The totals of blocks 0 .. n - 1, in block order: what the slots hold once every worker has run. */
  function Totals(a: seq<int>, blockSize: nat, step: nat, n: nat): (r: seq<int>)
    requires blockSize * n <= |a|
    ensures |r| == n
  {
    if n == 0 then []
    else
      MulSucc(blockSize, n - 1);
      Totals(a, blockSize, step, n - 1) + [BlockTotal(a, blockSize, step, n - 1)]
  }

  /** A slot that holds the total of block i extends the totals of the blocks before it. */
  lemma TotalsStep(a: seq<int>, blockSize: nat, step: nat, i: nat, v: int)
    requires blockSize * i + blockSize <= |a|
    requires step == 0 ==> v == 0
    requires step >= 1 ==> v == Sum(a[blockSize * i .. blockSize * i + blockSize])
    ensures blockSize * (i + 1) <= |a|
    ensures Totals(a, blockSize, step, i) + [v] == Totals(a, blockSize, step, i + 1)
  {
    MulSucc(blockSize, i);
  }

  /** Slot i of the totals is the total of block i. */
  lemma {:induction false} TotalsAt(a: seq<int>, blockSize: nat, step: nat, n: nat, i: nat)
    requires blockSize * n <= |a| && i < n
    ensures blockSize * i + blockSize <= |a|
    ensures Totals(a, blockSize, step, n)[i] == BlockTotal(a, blockSize, step, i)
  {
    MulSucc(blockSize, n - 1);
    if i < n - 1 {
      TotalsAt(a, blockSize, step, n - 1, i);
    }
  }

  /**
   * Reduction: the totals of blocks 0 .. n - 1 add up to the sum of the
   * first n * blockSize elements (0 when step is 0).
   */
  lemma {:induction false} ReduceTotals(a: seq<int>, blockSize: nat, step: nat, n: nat)
    requires blockSize * n <= |a|
    ensures Sum(Totals(a, blockSize, step, n)) == if step == 0 then 0 else Sum(a[..blockSize * n])
  {
    if n > 0 {
      var lo, hi := blockSize * (n - 1), blockSize * n;
      MulSucc(blockSize, n - 1);
      var t := Totals(a, blockSize, step, n);
      assert t[..n - 1] == Totals(a, blockSize, step, n - 1);
      ReduceTotals(a, blockSize, step, n - 1);
      if step != 0 {
        assert a[..hi] == a[..lo] + a[lo..hi];
        SumAppend(a[..lo], a[lo..hi]);
      }
    }
  }

  /**
   * One iteration of sumArray's spawn loop: descriptor i is filled in and
   * the worker for block i runs on it. Only descriptor i and slot i change;
   * the slot receives block i's total.
   */
  method StartWorker(arr: array<int>, size: nat, numBlocks: nat, step: nat, i: nat,
                     blockSums: array<int>, dataBlocks: array<BlockData>)
    requires 1 <= numBlocks <= size == arr.Length && i < numBlocks
    requires blockSums.Length == numBlocks && dataBlocks.Length == numBlocks
    requires arr != blockSums
    modifies blockSums, dataBlocks
    ensures (size / numBlocks) * i + size / numBlocks <= size
    ensures dataBlocks[i] == Descriptor(arr, size, numBlocks, step, i)
    ensures dataBlocks[..i] == old(dataBlocks[..i])
    ensures dataBlocks[i + 1..] == old(dataBlocks[i + 1..])
    ensures blockSums[i] == BlockTotal(arr[..], size / numBlocks, step, i)
    ensures blockSums[..i] == old(blockSums[..i])
    ensures blockSums[i + 1..] == old(blockSums[i + 1..])
  {
    BlockFits(size, numBlocks, i);
    var bd := Descriptor(arr, size, numBlocks, step, i);
    dataBlocks[i] := bd;
    SumBlock(bd, blockSums);
  }

  /**
   * sumArray with its worker threads run in block order: descriptor i is
   * filled in and the worker for block i runs, then the slots are reduced.
   * Afterwards every descriptor is the one the partition prescribes, the
   * slots hold the block totals in order, and the sum is that of the first
   * numBlocks * blockSize elements, the remainder being left out.
   */
  method SumArray(arr: array<int>, size: nat, numBlocks: nat, step: nat,
                  blockSums: array<int>, dataBlocks: array<BlockData>) returns (sum: int)
    requires 1 <= numBlocks <= size == arr.Length
    requires blockSums.Length == numBlocks && dataBlocks.Length == numBlocks
    requires arr != blockSums
    modifies blockSums, dataBlocks
    ensures (size / numBlocks) * numBlocks <= size
    ensures forall i :: 0 <= i < numBlocks ==> dataBlocks[i] == Descriptor(arr, size, numBlocks, step, i)
    ensures blockSums[..] == Totals(arr[..], size / numBlocks, step, numBlocks)
    ensures sum == Sum(blockSums[..])
    ensures sum == if step == 0 then 0 else Sum(arr[..(size / numBlocks) * numBlocks])
  {
    var blockSize := size / numBlocks;
    BlockSizeFacts(size, numBlocks);
    ghost var a := arr[..];
    var i := 0;
    while i != numBlocks
      invariant 0 <= i <= numBlocks
      invariant forall k :: 0 <= k < i ==> dataBlocks[k] == Descriptor(arr, size, numBlocks, step, k)
      invariant blockSize * i <= size
      invariant blockSums[..i] == Totals(a, blockSize, step, i)
    {
      ghost var before := blockSums[..i];
      StartWorker(arr, size, numBlocks, step, i, blockSums, dataBlocks);
      assert arr[..] == a;
      TotalsStep(a, blockSize, step, i, blockSums[i]);
      assert blockSums[..i + 1] == before + [blockSums[i]];
      i := i + 1;
    }
    sum := SumBlocks(blockSums, numBlocks);
    assert blockSums[..numBlocks] == blockSums[..];
    assert arr[..] == a;
    ReduceTotals(a, blockSize, step, numBlocks);
  }
}
