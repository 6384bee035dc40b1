# FFT engine (fftlib.cpp) in Dafny

This project models the FFT engine of `fftlib.cpp`:

- complex arithmetic;
- the quadratic reference transform `dft`;
- the recursive radix-2 transform `fft_cooley_tukey`;
- the in-place iterative transform `fft_iterative`, made of a bit-reversal scan followed by stages of butterflies;
- the two parallel schedules `fft_parallel_butterfly` (one task per block) and `fft_parallel_chunking` (four fixed chunks per stage);
- the dispatcher `fft`, which picks the serial or the chunked path by comparing the length against `THRESHOLD = 2^11`.

The model works at the level of indices, permutations and schedules:

- `Complex` is a pair of exact `real`s.
- Twiddle factors are parameters. `root(s)` is the rotation of the stage or combine step with block length `s`. The code computes it as `cos(2π/s) + i·sin(2π/s)`, with a positive sign. `tw(k, m)` is the factor of `dft`, which the code computes with the negative sign. Because the signs differ, nothing here relates `dft` to the fast transforms.
- A signal the code mutates in place is an `array<Complex>`. Every method states its final contents as a function of the old contents.
- The thread pool is a queue of tasks (`TaskPool.Task`) plus a completion order. The order is a parameter of the stage methods, and each stage is proved correct whatever that order is. That proof rests on disjoint blocks.

Modules, one per file:

| file | module | what it holds |
|---|---|---|
| complex.dfy | ComplexArith | `Complex`, `+ - *`, powers and their algebra |
| pow2.dfy | PowerOfTwo | powers of two and the division facts the index arithmetic needs |
| bitrev.dfy | BitReversal | `Rev`, the carry step of the running reversed counter, the in-place scan |
| butterfly.dfy | Butterfly | one block of butterflies, a stage as a closed form, runs of blocks |
| iterative.dfy | Iterative | the stage loop and `fft_iterative` |
| tasks.dfy | TaskPool | tasks, `enqueue` and `wait_all` as sequential runs, the disjointness argument |
| parallel.dfy | Parallel | the per-group schedule and the chunked schedule with a corrected chunk count |
| chunking.dfy | ChunkingAsWritten | the chunked schedule exactly as written, and where it fails |
| cooley_tukey.dfy | CooleyTukey | `fft_cooley_tukey`, and its equality with the iterative transform |
| dft.dfy | Reference | `dft` |
| dispatch.dfy | Dispatch | `fft` |

Facts about the code that shape the model:

- The fast transforms rotate by `+2π/s` (fftlib.cpp:58, fftlib.cpp:86), while `dft` rotates by `−2π·k·n/N` (fftlib.cpp:31). The abstract `root` and `tw` cover either sign.
- The code never checks that the length is a power of two, so the model takes `ValidLength` as a precondition.
- Above the threshold, the chunked path reads past the end of the array: see Findings.

## Model

| member | source | states |
|---|---|---|
| ComplexArith.Add | fftlib.cpp:12-14 | `operator+` adds the parts: taking away the second operand's parts from the result gives back the first operand's parts |
| ComplexArith.Sub | fftlib.cpp:16-18 | `operator-` subtracts the parts: adding back the second operand's parts gives the first operand's, and a value minus itself is zero |
| ComplexArith.Mul | fftlib.cpp:20-22 | `operator*` has `Complex(1)` as neutral element on both sides and `Complex(0, 0)` as absorbing element on both sides |
| ComplexArith.MulDistributesAdd | fftlib.cpp:12-22 | the product `(ac − bd, ad + bc)` distributes over the sum `(a + c, b + d)` on both sides |
| ComplexArith.AddZero | fftlib.cpp:12-14 | `Complex(0, 0)`, the initial `sum` of `dft`, is neutral for the sum |
| ComplexArith.AddInterchange | fftlib.cpp:12-14 | sums may be regrouped: (a+b)+(c+d) = (a+c)+(b+d) |
| ComplexArith.SubInterchange | fftlib.cpp:12-18 | a difference of sums is the sum of the differences: (a+b)−(c+d) = (a−c)+(b−d) |
| Reference.Dft | fftlib.cpp:24-38 | the input is replaced by the transform of the ORIGINAL input: every output k is the sum of a[m]·tw(k,m) over all m, accumulated left to right from zero; the sums read only the input, because they go to a separate buffer |
| Reference.DftLinear | fftlib.cpp:28-36 | the transform of a sum of signals is the sum of their transforms |
| Reference.DftSumLinear | fftlib.cpp:29-34 | every partial sum is linear in the signal |
| Reference.DftSumZeros | fftlib.cpp:29-34 | inputs that are zero add nothing to the running sum |
| Reference.DftImpulse | fftlib.cpp:28-36 | an impulse at index 0 gives x[0]·tw(k,0) in every output |
| Reference.DftZeros | fftlib.cpp:24-38 | the transform of the zero signal is zero, of the same length |
| PowerOfTwo.Log2 | fftlib.cpp:72-82 | the number of bits b of an index into a signal of length n satisfies 2^b = n |
| PowerOfTwo.Pow2IsPow2 | fftlib.cpp:85 | every 2^k is a power of two, and its bit count is k |
| PowerOfTwo.Pow2Monotone | fftlib.cpp:85 | `s *= 2` keeps the order of stage sizes: j <= k exactly when 2^j <= 2^k |
| PowerOfTwo.Pow2Divides | fftlib.cpp:85-88 | every stage size 2^j divides every larger 2^k, with quotient 2^(k−j) |
| BitReversal.Rev | fftlib.cpp:72-82 | the m-bit reversal of an index is below 2^m |
| BitReversal.RevInvolution | fftlib.cpp:73-75 | reversing an index twice gives it back, so the pairs swapped at i and at rev(i) are the same pair |
| BitReversal.RevTopBit | fftlib.cpp:76-81 | the top bit of a reversal is the low bit of the index, and the rest is the reversal of the rest |
| BitReversal.RevSucc | fftlib.cpp:76-81 | the subtract-and-halve carry loop with its `m >= 2` guard, followed by `j += m`, turns rev(i) into rev(i + 1) |
| BitReversal.RevZero | fftlib.cpp:72 | the counter starts at j = 0 = rev(0) |
| BitReversal.CarryStepBound | fftlib.cpp:77-81 | started from a counter j < 2m with m a power of two, the carry loop and `j += m` leave a counter between 1 and 2m, so the reversed counter never passes n |
| BitReversal.NextReversed | fftlib.cpp:76-81 | the carry loop: whenever i + 1 < n, the new counter is rev(i + 1) |
| BitReversal.BitReversedInvolution | fftlib.cpp:72-82 | the bit-reversal permutation applied twice is the identity |
| BitReversal.ScanVisit | fftlib.cpp:73-75 | one visit exchanges cells i and rev(i) when rev(i) > i, changes nothing when rev(i) <= i, and leaves every other cell as it was |
| BitReversal.ScanVisitPermutes | fftlib.cpp:73-75 | one step of the scan, which swaps only when j > i, keeps the multiset of cells |
| BitReversal.ScanStep | fftlib.cpp:72-75 | after visiting i, every cell below i + 1 holds the original element at its reversed index, and every other cell still holds an original element |
| BitReversal.ScanPrefixPermutes | fftlib.cpp:72-82 | any prefix of the scan keeps the multiset of cells |
| BitReversal.ScanPrefixOrigins | fftlib.cpp:72-82 | after i steps the cells below i are final and the rest are still where the scan can find them |
| BitReversal.ScanDone | fftlib.cpp:72-82 | once every index has been visited, the array is the bit-reversal permutation |
| BitReversal.BitReversedByScan | fftlib.cpp:72-82 | the full scan computes a[k] = old a[rev(k)] for every k, with the same multiset |
| BitReversal.Swap | fftlib.cpp:74 | `std::swap` exchanges two cells, changes nothing else and keeps the multiset |
| BitReversal.Visit | fftlib.cpp:73-75 | one visit of the scan, `if (j > i) swap(a[i], a[j])` with j = rev(i), leaves the array as `ScanVisit` of its old contents |
| BitReversal.BitReversePermute | fftlib.cpp:72-82 | the in-place scan leaves a[k] = old a[rev(k)] for every k, keeping length and multiset |
| Butterfly.BlockFrame | fftlib.cpp:88-96 | the butterflies of the block at i change no cell outside [i, i + s) |
| Butterfly.PartialBlockPending | fftlib.cpp:91-92 | before butterfly j runs, cells i + j and i + j + s/2 still hold their inputs, so `u` and `t` read original values |
| Butterfly.BlockLocal | fftlib.cpp:88-96 | a block's result depends only on the cells of that block |
| Butterfly.StageCellLocal | fftlib.cpp:85-96 | each cell of a stage depends only on the block containing it |
| Butterfly.PartialBlockStep | fftlib.cpp:91-95 | butterfly j writes `u + t` to i + j and `u − t` to i + j + s/2, with t = wn^j·a[i + j + s/2], and changes nothing else |
| Butterfly.ButterflyBlock | fftlib.cpp:89-96 | the offset loop, with `w` restarting at 1 for the block, computes the block transform: cell i + j becomes x[i+j] + wn^j·x[i+j+s/2], and cell i + j + s/2 becomes the difference |
| Butterfly.RunBlocksAppend | fftlib.cpp:88 | running two lists of blocks in turn is running their concatenation |
| Butterfly.RunBlocksCells | fftlib.cpp:88-96 | running distinct aligned blocks in any order gives the stage value in exactly the cells of those blocks and leaves the other cells unchanged |
| Butterfly.StartsPartition | fftlib.cpp:88 | the block starts 0, s, 2s, … are distinct and aligned, and cover every index below n |
| Butterfly.StageAnyOrder | fftlib.cpp:85-96 | any list of distinct aligned blocks that covers the signal computes the stage, whatever their order |
| Butterfly.StageBySerialBlocks | fftlib.cpp:88-96 | the serial block loop computes the stage |
| Iterative.HalfDivides | fftlib.cpp:85 | when 2^k divides n, so does 2^(k−1), and blocks of 2^k fit the signal |
| Iterative.IterativeSpecUnfold | fftlib.cpp:67-102 | for n = 2^b >= 2, the transform is the b stages applied to the bit-reversed signal |
| Iterative.IterativeSpecLength | fftlib.cpp:67-102 | the transform keeps the length |
| Iterative.IterativeSpecSingle | fftlib.cpp:69 | a one-cell signal is returned unchanged |
| Iterative.IterativeSpecPair | fftlib.cpp:85-96 | a two-cell signal becomes [x0 + x1, x0 − x1] |
| Iterative.SerialStage | fftlib.cpp:88-97 | the block loop `i += s` leaves the array equal to the stage with block length s |
| Iterative.SerialStages | fftlib.cpp:85-101 | the stage loop `s = 2, 4, …, n` applies the stages 2^1 … 2^b in order |
| Iterative.StageCounterFits | fftlib.cpp:85 | the stage loop leaves with s = 2n, which fits the 32-bit signed counter exactly when n <= 2^29 |
| Iterative.FftIterative | fftlib.cpp:67-102 | `fft_iterative` leaves the iterative transform of the old contents: nothing for n <= 1, otherwise the bit-reversal followed by every stage |
| TaskPool.Iterations | fftlib.cpp:176 | a chunk loop `for (i = lo; i < hi; i += s)` runs no round exactly when lo >= hi |
| TaskPool.IterationsExact | fftlib.cpp:176 | a chunk of m whole blocks runs exactly m rounds |
| TaskPool.RunChunk | fftlib.cpp:174-185 | a chunk task runs the blocks lo, lo + s, … below hi, in that order |
| TaskPool.RunTask | fftlib.cpp:127-136 | a queued task runs its blocks: one block for a group task, the chunk's blocks for a chunk task |
| TaskPool.WaitAll | fftlib.cpp:139 | `wait_all` returns once every queued task has run, the tasks finishing in the given order |
| TaskPool.PartitionRunnable | fftlib.cpp:125-136 | tasks whose blocks are aligned and distinct stay inside the signal |
| TaskPool.RanAvoids | fftlib.cpp:139 | a task that has not run yet shares no block with the tasks that have |
| TaskPool.RanIncludes | fftlib.cpp:139 | every block of a task that has run is among the blocks run |
| TaskPool.TaskStepCells | fftlib.cpp:127-136 | one more disjoint task brings exactly its own blocks to their stage values |
| TaskPool.RunTasksCells | fftlib.cpp:139 | after the first t tasks in any completion order, exactly the cells of their blocks hold the stage value |
| TaskPool.RunTasksCellsStep | fftlib.cpp:127-139 | one more task, disjoint from those that ran, brings exactly its own blocks to their stage values and leaves the description of every other cell intact |
| TaskPool.TasksComputeStage | fftlib.cpp:125-139 | when a stage's tasks split the signal into disjoint aligned blocks that cover it, running all of them in any order computes the serial stage |
| Parallel.GroupQueuePartition | fftlib.cpp:125-137 | one task per block start i = 0, s, 2s, …: the tasks are disjoint and cover the signal |
| Parallel.EnqueueGroups | fftlib.cpp:125-137 | the enqueue loop queues exactly one group task per block start |
| Parallel.GroupStage | fftlib.cpp:125-139 | a per-group stage equals the serial stage, whatever order the pool finishes its tasks in |
| Parallel.GroupStages | fftlib.cpp:122-144 | the per-group stage loop applies every stage in order |
| Parallel.FftParallelButterfly | fftlib.cpp:104-145 | `fft_parallel_butterfly` computes the iterative transform, for every completion order of the pool |
| Parallel.ChunkCount | fftlib.cpp:171-172 | corrected chunk count: at most four chunks, never more than the n/s blocks, and at least one when a block fits |
| Parallel.ChunkBlocks | fftlib.cpp:174-176 | chunk c of m whole blocks runs exactly the blocks c·m·s, c·m·s + s, … |
| Parallel.ChunksDisjoint | fftlib.cpp:174-176 | two different chunks share no block |
| Parallel.ChunkCovers | fftlib.cpp:174-176 | every cell's block lies in the chunk containing the cell |
| Parallel.ChunkQueuePartition | fftlib.cpp:171-187 | with the corrected chunk count, the chunks of every stage are disjoint, aligned and cover the signal |
| Parallel.EnqueueChunks | fftlib.cpp:171-187 | the enqueue loop queues exactly the corrected chunks |
| Parallel.ChunkStage | fftlib.cpp:171-189 | a corrected chunked stage equals the serial stage, whatever the completion order |
| Parallel.ChunkStages | fftlib.cpp:165-194 | the corrected chunked stage loop applies every stage in order |
| Parallel.FftParallelChunking | fftlib.cpp:147-195 | corrected `fft_parallel_chunking` computes the iterative transform for every completion order |
| ChunkingAsWritten.ChunkQueueAsWritten | fftlib.cpp:171-175 | every stage queues four chunks, chunk c covering [c·(n/4), (c+1)·(n/4)) |
| ChunkingAsWritten.ChunkRangesAsWritten | fftlib.cpp:171-175 | for n a multiple of 4, the four chunk ranges partition [0, n): cell k lies in chunk c exactly when c = k / (n/4) |
| ChunkingAsWritten.FirstOutOfRange | fftlib.cpp:178-179 | a block that runs past the end first reads a cell at or past n, no earlier than i + s/2 |
| ChunkingAsWritten.RunCheckedInRange | fftlib.cpp:176-185 | a run of blocks completes exactly when every block fits, and it then equals the unchecked run |
| ChunkingAsWritten.FlattenRuns | fftlib.cpp:172-189 | running the chunks in enqueue order is running all their blocks in turn |
| ChunkingAsWritten.ChunkedStageEarly | fftlib.cpp:171-187 | while s <= n/4, the four chunks are the corrected ones and the stage completes with the serial result |
| ChunkingAsWritten.ChunkedStagesEarly | fftlib.cpp:165-194 | the stages up to s = n/4 complete with the serial result |
| ChunkingAsWritten.ChunkSingleBlocks | fftlib.cpp:171-176 | at any block length s >= n/4 each as-written chunk holds exactly one block, starting at 0, n/4, n/2 and 3n/4 |
| ChunkingAsWritten.ChunkedStageHalfFaults | fftlib.cpp:171-187 | at s = n/2, for n >= 4, the chunks are not aligned, some chunk cannot run inside the signal, and the stage reads index n |
| ChunkingAsWritten.ChunkedStageFullFaults | fftlib.cpp:171-187 | at the last stage s = n, for n >= 4, the chunks are again not aligned, some chunk cannot run inside the signal, and the stage reads index n |
| ChunkingAsWritten.ChunkedStageTiny | fftlib.cpp:171-176 | below four cells every chunk is empty and a stage changes nothing |
| ChunkingAsWritten.ChunkedAsWrittenFaults | fftlib.cpp:147-195 | as written, every power-of-two length n >= 4 reads a[n], one past the end |
| ChunkingAsWritten.ChunkedAsWritten | fftlib.cpp:147-195 | as written, a completed run keeps the length, and signals of at most one cell are returned unchanged |
| ChunkingAsWritten.ButterflyFixed | fftlib.cpp:91-94 | `u + t == u` and `u − t == t` hold together exactly when both values are zero |
| ChunkingAsWritten.PairFixed | fftlib.cpp:91-94 | the two-point butterfly leaves a pair unchanged exactly when both cells are zero |
| ChunkingAsWritten.ChunkedAsWrittenPair | fftlib.cpp:171-176 | as written, n = 2 returns its input, which is the transform only for the zero signal |
| CooleyTukey.EvensOddsInterleave | fftlib.cpp:47-51 | every even cell of the input is in the even half at k/2, and every odd cell is in the odd half at k/2 |
| CooleyTukey.CombineAt | fftlib.cpp:60-62 | the combined cell i is e[i] + wn^i·o[i], and cell i + n/2 is the difference |
| CooleyTukey.SplitHalves | fftlib.cpp:47-51 | the split loop fills fresh buffers with a0[i] = a[2i] and a1[i] = a[2i+1] |
| CooleyTukey.CombinedStep | fftlib.cpp:60-64 | one round of the combine loop writes exactly cells i and i + n/2 |
| CooleyTukey.CombinedAll | fftlib.cpp:60-64 | after n/2 rounds every cell has been rewritten |
| CooleyTukey.CombinePass | fftlib.cpp:61-62 | one round writes a0[i] + w·a1[i] to i and a0[i] − w·a1[i] to i + n/2, changing nothing else |
| CooleyTukey.CombineHalves | fftlib.cpp:58-64 | the combine loop overwrites all n cells with the combination of the two transformed halves |
| CooleyTukey.FftCooleyTukey | fftlib.cpp:42-65 | `fft_cooley_tukey` leaves the recursive transform of the old contents: unchanged for n <= 1, otherwise split, recurse and combine |
| CooleyTukey.CooleyTukeySingle | fftlib.cpp:44 | a one-cell signal is returned unchanged |
| CooleyTukey.DecimatedHalves | fftlib.cpp:47-51 | the even and odd halves of a stride-2^m subsequence are its stride-2^(m+1) subsequences |
| CooleyTukey.StageBlockCombine | fftlib.cpp:88-96 | a block of an iterative stage is the recursive combine of the block's two halves |
| CooleyTukey.CooleyTukeyDecimated | fftlib.cpp:42-65 | the recursive transform of a stride-2^m subsequence combines the transforms of its two stride-2^(m+1) subsequences |
| CooleyTukey.StagesBlocks | fftlib.cpp:85-96 | after k stages on the bit-reversed signal, each block of 2^k cells holds the block transform of its inputs |
| CooleyTukey.BlockTransformIsCooleyTukey | fftlib.cpp:42-65 | the block transform of block q is the recursive transform of the subsequence at offset rev(q) |
| CooleyTukey.IterativeIsCooleyTukey | fftlib.cpp:42-102 | with the same rotations `root`, `fft_iterative` and `fft_cooley_tukey` compute the same transform of every power-of-two signal |
| CooleyTukey.HalvesOfSum | fftlib.cpp:47-51 | the even and odd halves of a sum of signals are the sums of their halves |
| CooleyTukey.CombineLinear | fftlib.cpp:60-64 | the combine loop is linear: combining sums of halves gives the sum of the combinations |
| CooleyTukey.CooleyTukeyLinear | fftlib.cpp:42-65 | the recursive transform of a sum of signals is the sum of their transforms |
| CooleyTukey.CombineZeros | fftlib.cpp:60-64 | combining two zero halves gives the zero signal |
| CooleyTukey.CooleyTukeyZeros | fftlib.cpp:42-65 | the recursive transform of the zero signal is zero |
| CooleyTukey.IterativeLinear | fftlib.cpp:67-102 | the iterative transform of a sum of signals is the sum of their transforms |
| CooleyTukey.IterativeZeros | fftlib.cpp:67-102 | the iterative transform of the zero signal is zero |
| Dispatch.Fft | fftlib.cpp:197-206 | corrected `fft`: both branches leave the iterative transform, which is also the recursive transform |
| Dispatch.FftAsWritten | fftlib.cpp:197-206 | `fft` as written: every signal longer than 2^11 cells ends reading index n, one past the end |
| Dispatch.FftAsWrittenCompletes | fftlib.cpp:197-206 | `fft` as written completes exactly when n <= 2^11, with the transform; every longer power of two reads a[n] |

## Left out

- Twiddle values: `cos`, `sin` and `M_PI` (fftlib.cpp:31-32, 58-59, 86, 123, 166) are floating point. They become the parameters `root` and `tw`.
- `double` rounding: exact `real` arithmetic replaces it, so nothing is claimed about the accuracy of the accumulated rotation `w = w * wn`.
- Equality of `dft` with the fast transforms: the code uses opposite exponent signs, so it does not promise this.
- `ThreadHive`: concurrency and the header that defines it are not part of this model. `enqueue` and `wait_all` become a queue run sequentially in a completion order that is a parameter: each task runs atomically, one after another. The interleaving of steps between tasks running at the same time is not modelled. For the per-group and the corrected chunked schedules this is harmless, because their tasks touch disjoint cells. The stage barrier is the sequencing of the stage methods. The pool size of 4 (fftlib.cpp:203) plays no part.
- Timing and console output inside the stage loops are left out, because they have no effect on the signal.
- `tests.cpp` is left out, because it is a benchmark harness of file reading, signal generation and printing.
- `fftlib.h` holds declarations only. Its one relevant fact, that `Complex(1)` is `(1, 0)`, is the constant `One`.
- 32-bit `int` indices are unbounded `nat`s. Every index and counter the code forms stays at most 2n, so this is exact while 2n fits an `int`.
- Iterative.SerialStages: holds for n <= 2^29 only in the code. The final `s *= 2` (fftlib.cpp:85) makes s = 2n, which overflows a 32-bit `int` at n = 2^30; the model's counter is unbounded and the loop ends cleanly. `Iterative.StageCounterFits` states the bound.
- Parallel.GroupStages: the same bound n <= 2^29 applies to its `s *= 2` (fftlib.cpp:122).
- Parallel.ChunkStages: the same bound n <= 2^29 applies to its `s *= 2` (fftlib.cpp:165).
- Non-power-of-two lengths: the code does not check the length. The fast transforms require `ValidLength` (0 or a power of two) rather than modelling behaviour the code leaves undefined.
- ChunkingAsWritten.ChunkedAsWritten: the as-written chunked transform is a sequential simulation in enqueue order that stops at the first read past the end. It does not model the data race between overlapping chunks; that race shows only as the failed `TasksSplit` in `ChunkedStageHalfFaults`.
- CooleyTukey.CombineHalves: the guard `if (i + n/2 < n)` at fftlib.cpp:63 always holds inside the loop, so the method advances `w` under the same guard without stating anything about it. The loop condition `2 * i < n` is written as `for i := 0 to n / 2`, which is equivalent for even n.
- Dispatch.Fft: models the corrected chunked path. `Dispatch.FftAsWritten` is the dispatcher as written.

## Findings

| source | as written | input that shows it | evidently intended | confidence | as-written member | corrected member |
|---|---|---|---|---|---|---|
| fftlib.cpp:171-187 | every stage splits the signal into four chunks of `n / 4` cells, whatever the block length `s` | any power of two n >= 4 (for example n = 4096, the first length the dispatcher sends there): at s = n/2 the chunk at n/4 starts inside a block, and the chunk at 3n/4 reads `a[n]`; for n = 2 every chunk is empty and nothing is combined | chunks made of whole blocks: `min(4, n / s)` chunks of `n / min(4, n / s)` cells, so that the result equals the serial stage | not executed | ChunkingAsWritten.ChunkedAsWrittenFaults | Parallel.FftParallelChunking |
