# pthreads-timing, modelled in Dafny

`pthreads-timing.c` sums an integer array in three steps:

1. **Partition.** The array is split into `numBlocks` blocks of
   `blockSize = size / numBlocks` elements (floor division).
2. **Strided sum.** One worker per block adds up its block in `step`
   interleaved passes and writes the result into its own slot of the global
   `blockSums` array.
3. **Reduce.** The coordinator adds up the slots.

The program also times the run, and `main` validates the command-line flags
and fills the array.

The model consists of five modules:

- `Sums`: the reference sums.
  - `Sum` over a sequence.
  - `SumAt`, a sequence read at a list of indices (`Read` gives 0 for an
    index outside the sequence; the strided reads never fall outside).
  - `Span`, a range of indices.
  - The lemma that reading the same indices in any order gives the same total.
- `StridedScan`: the order in which `sumBlock`'s nested loops visit the
  indices of a block.
  - The proof that, for any step of at least one, every index of the block is
    visited exactly once.
- `Summation`: the imperative core over arrays.
  - `InitArray` fills the array.
  - `SumBlock` is the worker. Its loops are proved against `Visits`, and
    through the coverage lemma against the plain block sum.
  - `SumBlocks` is the reduction.
  - `SumArray` is the coordinator. Its spawn loop (`StartWorker` per block)
    fills the descriptor array and runs the workers in block order; it then
    reduces their slots. `Totals` lists the block totals it is proved
    against.
  - The partition lemmas cover the descriptor shape, which block owns each
    index, and the remainder that no block owns.
- `Arguments`: `main`'s flag loop as a method (`ProcessArguments`). It is
  proved equal to a fold of the if-chain (`ParseArgs`). That fold is in turn
  characterised by an independent exit-code table: the first rejected pair
  decides the code, and otherwise the last value of each flag wins.
- `Program`: the rest of `main` once the flags are accepted. It allocates the
  arrays, fills the array and sums it. It also holds the worked examples.

The worker threads run one after the other, at the point where the program
spawns them. Running them in sequence gives the same slots as the threads
would, because:

- each worker only reads the shared array;
- each worker writes its own slot (`SumBlock`'s frame clause and its
  "other slots unchanged" postcondition);
- the coordinator reads the slots only after every worker has finished.

What the code does at the edges, and the model with it:

- **Block count 0 and step 0.** Only negative values of `-b` and `-p` are
  refused, so `-b 0` and `-p 0` are accepted (`ArgumentExamples`).
  - Step 0 makes every worker store 0 in its slot, so the total is 0
    (`SumBlock`, `Run`).
  - Block count 0 divides by zero at line 101. The summing methods therefore
    require `1 <= numBlocks <= size`.
- **Remainder elements.** The indices from `numBlocks * blockSize` to
  `size - 1` belong to no block and are never summed (`PartitionCovers`,
  `SumArray`, `TenInThreeBlocks`).

## Model

| member | source | states |
|---|---|---|
| `Sums.SumAtPermutation` | pthreads-timing.c:89-93 | reading the same multiset of indices in any order gives the same total, so the order of the strided reads cannot change the sum |
| `StridedScan.VisitsWithin` | pthreads-timing.c:89-90 | every index the nested loops read lies between minIdx and maxIdx |
| `StridedScan.VisitsEmpty` | pthreads-timing.c:90 | when minIdx > maxIdx, no pass reads anything |
| `StridedScan.VisitedExactlyOnce` | pthreads-timing.c:89-93 | for every step >= 1, the step passes read each index k with minIdx <= k <= maxIdx exactly once and read no other index |
| `StridedScan.VisitsPermuteBlock` | pthreads-timing.c:89-93 | the visits are a permutation of minIdx..maxIdx |
| `StridedScan.StridedSumIsBlockSum` | pthreads-timing.c:89-93 | the strided traversal sums to the plain sum of array[minIdx..maxIdx] for every step >= 1, including steps larger than the block |
| `Summation.InitArray` | pthreads-timing.c:38-53 | a fresh array of the given size; outside mode 1, element i is i; in mode 1, element i is the i-th rand() draw mod 2000 minus 1000, which lies in [-1000, 1000) |
| `Summation.InitialsPrefix` | pthreads-timing.c:46-50 | the first m initial values do not depend on how long the array is |
| `Summation.SumBlocks` | pthreads-timing.c:70-78 | the result is the in-order sum of slots 0..numBlocks-1, and 0 when there are none |
| `Summation.SumBlock` | pthreads-timing.c:82-96 | step 0 stores 0; with step >= 1 the slot receives the plain sum of array[minIdx..maxIdx] (0 for an empty block), proved through loop invariants over the visiting order `Visits`; the slots before and after currBlock keep their values |
| `Summation.BlockSizeFacts` | pthreads-timing.c:101 | with 1 <= numBlocks <= size, blockSize >= 1 and numBlocks * blockSize <= size < numBlocks * blockSize + numBlocks, so fewer than numBlocks elements are left over |
| `Summation.BlockFits` | pthreads-timing.c:109-111 | block i < numBlocks ends at or before numBlocks * blockSize <= size, so every read stays inside the array |
| `Summation.PartitionShape` | pthreads-timing.c:101-120 | descriptor i holds blockSize >= 1 elements ending below size; it carries currBlock = i and the shared array, step and count; block i+1 starts right after block i ends |
| `Summation.DivBlock` | pthreads-timing.c:110-111 | index k lies in [bs*i, bs*i + bs) exactly when k / bs == i |
| `Summation.PartitionCovers` | pthreads-timing.c:101-111 | index k lies in block i exactly when k < numBlocks * blockSize and i == k / blockSize, so every index is in at most one block and the remainder indices are in none |
| `Summation.TotalsStep` | pthreads-timing.c:109-124 | a slot holding block i's total extends the totals of blocks 0..i-1 to those of blocks 0..i |
| `Summation.TotalsAt` | pthreads-timing.c:109-124 | entry i of the block totals is the total of block i |
| `Summation.ReduceTotals` | pthreads-timing.c:109-132 | the totals of blocks 0..n-1 add up to the sum of the first n * blockSize elements (0 when step is 0) |
| `Summation.StartWorker` | pthreads-timing.c:109-124 | one spawn-loop iteration: descriptor i becomes the one the partition prescribes and slot i receives block i's total; every other descriptor and slot keeps its value |
| `Summation.SumArray` | pthreads-timing.c:100-132 | every descriptor is the one the partition prescribes; the slots are the block totals in block order; the result is the sum of the slots, which equals the sum of array[0 .. numBlocks*blockSize) (0 when step is 0) |
| `Arguments.ProcessArguments` | pthreads-timing.c:142-183 | the loop's outcome (an exit code, or the configuration main goes on with) equals ParseArgs of the command line |
| `Arguments.PairsAt` | pthreads-timing.c:152-155 | pair k of a well-formed command line is flag word 2k+1 with the integer value of word 2k+2 |
| `Arguments.ResumeAt` | pthreads-timing.c:152-183 | continuing the loop at pair k applies pair k's if-chain and then either returns its exit code or continues at pair k+1 |
| `Arguments.ApplyFlagAgrees` | pthreads-timing.c:157-182 | the if-chain agrees with the exit-code table and sets exactly the variable named by its flag |
| `Arguments.ResumeCharacterised` | pthreads-timing.c:142-183 | the loop exits with the first rejected pair's code; otherwise each variable takes the value of its last flag, or the value it started with (defaults 10000, 0, 1, 1, no seed) |
| `Arguments.NoRejectionMeansAllAccepted` | pthreads-timing.c:157-182 | no first rejection exactly when the table accepts every pair |
| `Arguments.AcceptedIffNoRejection` | pthreads-timing.c:157-182 | the flags are accepted if and only if no pair is rejected: not a negative -b, a -m outside {0,1}, a negative -p, or an unknown flag |
| `Arguments.FirstRejectionAt` | pthreads-timing.c:152-182 | the first rejected pair's code is the code of the first rejected position |
| `Arguments.FirstViolationDecides` | pthreads-timing.c:152-182 | if pair j is the first rejected pair, main returns its code whatever follows |
| `Arguments.LastOfOccurs` | pthreads-timing.c:157-178 | the value a flag ends with is the value of some pair with that flag |
| `Arguments.AcceptedIsValid` | pthreads-timing.c:159-176 | an accepted configuration has numBlocks >= 0, stepSize >= 0 and mode 0 or 1 |
| `Arguments.ExitOneIffEvenCount` | pthreads-timing.c:147-150 | main returns 1 exactly when argc is even |
| `Program.Triangular` | pthreads-timing.c:46-50 | outside mode 1, twice the sum of the first n elements is n*(n-1) |
| `Program.RandomSumBounds` | pthreads-timing.c:25-45 | n random-mode elements sum to a value in [-1000*n, 999*n] |
| `Program.Run` | pthreads-timing.c:185-192 | the printed sum is that of the first numBlocks*(arraySize/numBlocks) initial values, or 0 for step 0; in mode 0 it is n*(n-1)/2; in mode 1 it lies in [-1000*n, 999*n] |
| `Program.EightInTwoBlocks` | pthreads-timing.c:100-132 | size 8 in 2 blocks with step 1: the slots hold the block totals 6 and 22, and the reduction of the slots gives 28 |
| `Program.TenInThreeBlocks` | pthreads-timing.c:101-111 | size 10 in 3 blocks: blocks [0,2], [3,5] and [6,8]; index 9 is in no block; the mode-0 sum is 36 rather than 45 |
| `Program.ArgumentExamples` | pthreads-timing.c:142-183 | the cases below |

The cases `Program.ArgumentExamples` covers:

- no flags gives the defaults;
- `-b 0 -p 0` is accepted;
- an unknown flag before a bad `-b` returns 5;
- `-b 4 -b 2` ends with 2 blocks;
- a lone flag word returns 1.

## Left out

- Threads (`pthread_create` and `pthread_join`, lines 123 and 128) are not
  modelled. The workers run sequentially in block order, and the join loop
  has nothing to wait for. The single-writer slots that make this sound are
  part of `SumBlock`'s contract.
- The timing (`clock_gettime` and the `double` elapsed time, lines 105 and
  134-137) is I/O on a clock plus floating point. `SumArray` returns only
  the sum.
- Allocation and freeing (`initThreadData`, `freeArray`, lines 55-68) are
  not modelled. They become `new` arrays in `Run`, allocated after the array
  is filled rather than before: a descriptor array needs an initial value.
  The thread-id array has no counterpart.
- `rand` and `srand` are left out: the C library's generator is not part of
  this model. In mode 1 the values `rand()` returns are the `draws`
  parameter. `-r` is recorded as the configuration's seed, but its effect on
  the draws is not modelled.
- `printf`, `atoi` and `strcmp` are not modelled. Each command-line word
  carries its text and the integer `atoi` returns for it, and flags are
  compared by string equality.
- Fixed-width integers are not modelled; integers are mathematical.
  - `long` overflow of the accumulators is outside the model.
  - So are the `int`/`unsigned` conversions of the fields and of `-s`.
  - So is the unsigned wrap-around of `blockSize - 1` when
    `numBlocks > size`, which is excluded by the precondition
    `1 <= numBlocks <= size`.
- Summation.SumArray: requires `1 <= numBlocks <= size`, which the program
  does not check. `-b 0` divides by zero at line 101, and
  `numBlocks > size` wraps and reads out of bounds.
- Program.Run: requires an accepted configuration with
  `1 <= numBlocks <= arraySize`, because `main` passes unchecked values on.
