/** `fft_parallel_chunking` as written: every stage is cut into four chunks
    of n / 4 cells, whatever the block length s. A block of a stage with
    s > n / 4 then starts inside a chunk but runs past it, and past the end
    of the signal; for n = 2 the chunks are empty and nothing is combined.
    The tasks are run in enqueue order here, so that the first read past
    the end is well defined. */
module ChunkingAsWritten {
  import opened ComplexArith
  import opened PowerOfTwo
  import opened BitReversal
  import opened Butterfly
  import opened Iterative
  import opened TaskPool
  import opened Parallel

  /** The queue the source builds for every stage: `chunkSize = n / 4` and
      chunks 0 .. 3. */
  function ChunkQueueAsWritten(n: nat): (q: seq<Task>)
    ensures |q| == 4
    ensures forall c :: 0 <= c < 4 ==> q[c] == Chunk(c * (n / 4), (c + 1) * (n / 4))
  {
    ChunkTasks(4, n / 4)
  }

  /** What running the butterflies leads to: the new signal, or the first
      index past the end of the vector that a butterfly reads. */
  datatype Outcome = Done(y: seq<Complex>) | OutOfRange(index: nat)

  /** The first index at or past n that the block at i reads: butterfly j
      reads a[i + j + s/2] before anything else, so this is i + s/2 when the
      first butterfly already reads past the end, and n otherwise. */
  function FirstOutOfRange(i: nat, s: nat, n: nat): (e: nat)
    requires s > 0 && i + s > n
    ensures n <= e < i + s && i + s / 2 <= e
    ensures e == n || e == i + s / 2
  {
    if i + s / 2 >= n then i + s / 2 else n
  }

  /** Running a list of blocks in order, stopping at the first block that
      reaches past the end of the signal. */
  function RunChecked(x: seq<Complex>, starts: seq<nat>, s: nat, wn: Complex): (r: Outcome)
    requires s > 0
    ensures r.Done? ==> |r.y| == |x|
  {
    if starts == [] then Done(x)
    else
      match RunChecked(x, starts[..|starts| - 1], s, wn)
      case OutOfRange(e) => OutOfRange(e)
      case Done(y) =>
        var i := starts[|starts| - 1];
        if i + s <= |y| then Done(Block(y, i, s, wn)) else OutOfRange(FirstOutOfRange(i, s, |y|))
  }

  /** The run completes exactly when every block fits, and then it is the
      unchecked run. */
  lemma {:induction false} RunCheckedInRange(x: seq<Complex>, starts: seq<nat>, s: nat, wn: Complex)
    requires s > 0
    ensures RunChecked(x, starts, s, wn).Done? <==> InRange(starts, s, |x|)
    ensures InRange(starts, s, |x|) ==> RunChecked(x, starts, s, wn) == Done(RunBlocks(x, starts, s, wn))
  {
    if starts != [] {
      var init := starts[..|starts| - 1];
      RunCheckedInRange(x, init, s, wn);
      assert InRange(starts, s, |x|) ==> InRange(init, s, |x|);
      if InRange(init, s, |x|) && !InRange(starts, s, |x|) {
        var t :| 0 <= t < |starts| && starts[t] + s > |x|;
        assert t == |starts| - 1;
      }
    }
  }

  /** The blocks of the tasks of a queue, task after task. */
  function Flatten(queue: seq<Task>, s: nat): (r: seq<nat>)
    requires s > 0
  {
    if queue == [] then [] else Flatten(queue[..|queue| - 1], s) + TaskBlocks(queue[|queue| - 1], s)
  }

  /** The completion order 0, 1, ..., c - 1. */
  function Identity(c: nat): (order: seq<nat>)
    ensures IsOrder(order, c)
    ensures forall t :: 0 <= t < c ==> order[t] == t
  {
    var order := seq(c, i requires 0 <= i < c => i);
    forall q | 0 <= q < c
      ensures q in order
    {
      assert order[q] == q;
    }
    order
  }

  /** Flattening one task more appends its blocks. */
  lemma FlattenSnoc(queue: seq<Task>, t: nat, s: nat)
    requires s > 0 && t < |queue|
    ensures Flatten(queue[..t + 1], s) == Flatten(queue[..t], s) + TaskBlocks(queue[t], s)
  {
    assert queue[..t + 1][..t] == queue[..t];
  }

  /** The blocks of a queue of four tasks. */
  lemma FlattenFour(queue: seq<Task>, s: nat)
    requires s > 0 && |queue| == 4
    ensures Flatten(queue, s) ==
      TaskBlocks(queue[0], s) + TaskBlocks(queue[1], s) + TaskBlocks(queue[2], s) + TaskBlocks(queue[3], s)
  {
    assert queue[..0] == [];
    FlattenSnoc(queue, 0, s);
    FlattenSnoc(queue, 1, s);
    FlattenSnoc(queue, 2, s);
    FlattenSnoc(queue, 3, s);
    assert queue[..4] == queue;
  }

  /** One task more on both sides: the next task in enqueue order runs the
      blocks that flattening appends. */
  lemma FlattenRunsStep(x: seq<Complex>, queue: seq<Task>, order: seq<nat>, t: nat, t1: nat, s: nat, wn: Complex)
    requires s > 0 && Runnable(queue, s, |x|) && 0 < t <= |queue| && t1 == t - 1
    requires order == Identity(|queue|)
    requires InRange(Flatten(queue[..t1], s), s, |x|)
    requires RunTasks(x, queue, order, t1, s, wn) == RunBlocks(x, Flatten(queue[..t1], s), s, wn)
    ensures InRange(Flatten(queue[..t], s), s, |x|)
    ensures RunTasks(x, queue, order, t, s, wn) == RunBlocks(x, Flatten(queue[..t], s), s, wn)
  {
    var blocks := TaskBlocks(queue[t1], s);
    FlattenSnoc(queue, t1, s);
    assert queue[..t1 + 1] == queue[..t];
    assert order[t1] == t1;
    RunBlocksAppend(x, Flatten(queue[..t1], s), blocks, s, wn);
  }

  /** Running the tasks in enqueue order is running their blocks in turn. */
  lemma {:induction false} FlattenRuns(x: seq<Complex>, queue: seq<Task>, t: nat, s: nat, wn: Complex)
    requires s > 0 && Runnable(queue, s, |x|) && t <= |queue|
    ensures InRange(Flatten(queue[..t], s), s, |x|)
    ensures RunTasks(x, queue, Identity(|queue|), t, s, wn) == RunBlocks(x, Flatten(queue[..t], s), s, wn)
  {
    if t == 0 {
      assert queue[..t] == [];
    } else {
      var t1 := t - 1;
      FlattenRuns(x, queue, t1, s, wn);
      FlattenRunsStep(x, queue, Identity(|queue|), t, t1, s, wn);
    }
  }

  /** One stage of the transform as written, the chunks run in enqueue order. */
  function ChunkedStageAsWritten(x: seq<Complex>, s: nat, wn: Complex): (r: Outcome)
    requires s > 0
    ensures r.Done? ==> |r.y| == |x|
  {
    RunChecked(x, Flatten(ChunkQueueAsWritten(|x|), s), s, wn)
  }

  /** The stages 2 .. 2^k as written, stopping at the first read past the end. */
  function ChunkedStagesAsWritten(y: seq<Complex>, k: nat, root: nat -> Complex): (r: Outcome)
    ensures r.Done? ==> |r.y| == |y|
  {
    if k == 0 then Done(y)
    else
      match ChunkedStagesAsWritten(y, k - 1, root)
      case OutOfRange(e) => OutOfRange(e)
      case Done(z) => ChunkedStageAsWritten(z, Pow2(k), root(Pow2(k)))
  }

  /** `fft_parallel_chunking` as written. */
  function ChunkedAsWritten(x: seq<Complex>, root: nat -> Complex): (r: Outcome)
    requires ValidLength(|x|)
    ensures r.Done? ==> |r.y| == |x|
    ensures |x| <= 1 ==> r == Done(x)
  {
    if |x| <= 1 then Done(x) else ChunkedStagesAsWritten(BitReversed(x), Log2(|x|), root)
  }

  /** While s <= n / 4 the four chunks are the corrected ones, and the
      stage comes out right. */
  lemma ChunkedStageEarly(x: seq<Complex>, wn: Complex, b: nat, k: nat)
    requires |x| == Pow2(b) && 1 <= k && k + 2 <= b
    ensures StageShape(|x|, Pow2(k))
    ensures ChunkQueueAsWritten(|x|) == ChunkQueue(|x|, Pow2(k))
    ensures ChunkedStageAsWritten(x, Pow2(k), wn) == Done(Stage(x, Pow2(k), wn))
  {
    var n, s := |x|, Pow2(k);
    Pow2Divides(k, b);
    Pow2Divides(1, k);
    Pow2Monotone(2, b - k);
    assert ChunkCount(n, s) == 4;
    var queue := ChunkQueueAsWritten(n);
    ChunkQueuePartition(n, s, b, k);
    PartitionRunnable(queue, s, n);
    FlattenRuns(x, queue, 4, s, wn);
    assert queue[..4] == queue;
    RunCheckedInRange(x, Flatten(queue, s), s, wn);
    TasksComputeStage(x, queue, Identity(4), s, wn);
  }

  /** A chunk of q cells holds exactly one block of any length s >= q. */
  lemma ChunkOneBlock(lo: nat, q: nat, s: nat)
    requires q >= 1 && s >= q
    ensures TaskBlocks(Chunk(lo, lo + q), s) == [lo]
  {
    assert Iterations(lo + s, lo + q, s) == 0;
  }

  /** The as-written chunks of n = 4q cells at a block length s >= q hold
      one block each, starting at 0, q, 2q and 3q. */
  lemma ChunkSingleBlocks(n: nat, q: nat, s: nat)
    requires q >= 1 && n == 4 * q && s >= q
    ensures forall c :: 0 <= c < 4 ==> TaskBlocks(ChunkQueueAsWritten(n)[c], s) == [c * q]
    ensures Flatten(ChunkQueueAsWritten(n), s) == [0, q, 2 * q, 3 * q]
  {
    var queue := ChunkQueueAsWritten(n);
    assert n / 4 == q;
    forall c | 0 <= c < 4
      ensures TaskBlocks(queue[c], s) == [c * q]
    {
      assert queue[c] == Chunk(c * q, c * q + q);
      ChunkOneBlock(c * q, q, s);
    }
    FlattenFour(queue, s);
  }

  /** The as-written chunks split the signal into four consecutive quarters:
      cell k lies in chunk c exactly when c = k / (n / 4). */
  lemma ChunkRangesAsWritten(n: nat)
    requires n >= 4 && n % 4 == 0
    ensures forall k, c :: 0 <= k < n && 0 <= c < 4 ==>
      (ChunkQueueAsWritten(n)[c].lo <= k < ChunkQueueAsWritten(n)[c].hi <==> c == Quarter(k, n))
    ensures forall k :: 0 <= k < n ==> Quarter(k, n) < 4
  {
    var q := n / 4;
    var queue := ChunkQueueAsWritten(n);
    forall k | 0 <= k < n
      ensures Quarter(k, n) < 4
    {
      QuarterOf(k, q, n);
    }
    forall k, c | 0 <= k < n && 0 <= c < 4
      ensures queue[c].lo <= k < queue[c].hi <==> c == Quarter(k, n)
    {
      assert queue[c] == Chunk(c * q, c * q + q);
      if c * q <= k < c * q + q {
        DivModUnique(k, q, c, k - c * q);
      } else {
        QuarterOf(k, q, n);
      }
    }
  }

  /** The quarter of n cells that cell k lies in. */
  function Quarter(k: nat, n: nat): nat
    requires n >= 4
  {
    k / (n / 4)
  }

  /** Cell k of n = 4q cells lies in quarter k / q, from (k / q) * q up to
      (k / q) * q + q. */
  lemma QuarterOf(k: nat, q: nat, n: nat)
    requires q >= 1 && n == 4 * q && k < n
    ensures k / q < 4 && (k / q) * q <= k < (k / q) * q + q
  {
    var c := k / q;
    assert k == c * q + k % q;
    assert (c - 4) * q + 4 * q == c * q;
  }

  /** At the stage s = n / 2 of a signal of n >= 4 cells the chunks start at
      0, n/4, n/2 and 3n/4: the chunk at n/4 is not aligned to its block
      length, and the block at 3n/4 reads index n, one past the end. */
  lemma ChunkedStageHalfFaults(x: seq<Complex>, wn: Complex, b: nat)
    requires |x| == Pow2(b) && b >= 2
    ensures Pow2(b - 1) == |x| / 2
    ensures !TasksSplit(ChunkQueueAsWritten(|x|), |x| / 2, |x|)
    ensures !Runnable(ChunkQueueAsWritten(|x|), |x| / 2, |x|)
    ensures ChunkedStageAsWritten(x, |x| / 2, wn) == OutOfRange(|x|)
  {
    var n := |x|;
    var q := Pow2(b - 2);
    assert n == 4 * q && n / 2 == 2 * q;
    var s := 2 * q;
    var queue := ChunkQueueAsWritten(n);
    ChunkSingleBlocks(n, q, s);
    DivModUnique(q, s, 0, q);
    assert TaskBlocks(queue[1], s)[0] % s != 0;
    assert TaskBlocks(queue[3], s)[0] + s > n;
    var blocks := Flatten(queue, s);
    assert blocks[..3] == [0, q, 2 * q];
    RunCheckedInRange(x, blocks[..3], s, wn);
  }

  /** At the last stage s = n the chunks still start at 0, n/4, n/2 and
      3n/4: the block at n/4 runs past the end and reads index n. */
  lemma ChunkedStageFullFaults(x: seq<Complex>, wn: Complex, b: nat)
    requires |x| == Pow2(b) && b >= 2
    ensures !TasksSplit(ChunkQueueAsWritten(|x|), |x|, |x|)
    ensures !Runnable(ChunkQueueAsWritten(|x|), |x|, |x|)
    ensures ChunkedStageAsWritten(x, |x|, wn) == OutOfRange(|x|)
  {
    var n := |x|;
    var q := Pow2(b - 2);
    assert n == 4 * q;
    var queue := ChunkQueueAsWritten(n);
    ChunkSingleBlocks(n, q, n);
    DivModUnique(q, n, 0, q);
    assert TaskBlocks(queue[1], n)[0] % n != 0;
    assert TaskBlocks(queue[1], n)[0] + n > n;
    var blocks := Flatten(queue, n);
    assert blocks[..1] == [0];
    RunCheckedInRange(x, blocks[..1], n, wn);
    assert blocks[..2][..1] == blocks[..1];
    assert RunChecked(x, blocks[..2], n, wn) == OutOfRange(n);
    assert blocks[..3][..2] == blocks[..2];
    assert RunChecked(x, blocks[..3], n, wn) == OutOfRange(n);
    assert blocks[..3] == blocks[..|blocks| - 1];
    assert RunChecked(x, blocks, n, wn) == OutOfRange(n);
  }

  /** Signals of fewer than four cells give four empty chunks: a stage
      changes nothing. */
  lemma ChunkedStageTiny(x: seq<Complex>, s: nat, wn: Complex)
    requires |x| < 4 && s > 0
    ensures ChunkedStageAsWritten(x, s, wn) == Done(x)
  {
    var queue := ChunkQueueAsWritten(|x|);
    forall c | 0 <= c < 4
      ensures TaskBlocks(queue[c], s) == []
    {
      assert queue[c] == Chunk(0, 0);
    }
    FlattenFour(queue, s);
  }

  /** The as-written stages below n / 2 agree with the serial stages. */
  lemma {:induction false} ChunkedStagesEarly(y: seq<Complex>, root: nat -> Complex, b: nat, k: nat)
    requires |y| == Pow2(b) && k + 2 <= b
    ensures |y| % Pow2(k) == 0
    ensures ChunkedStagesAsWritten(y, k, root) == Done(Stages(y, k, root))
  {
    Pow2Divides(k, b);
    if k > 0 {
      ChunkedStagesEarly(y, root, b, k - 1);
      HalfDivides(|y|, k);
      ChunkedStageEarly(Stages(y, k - 1, root), root(Pow2(k)), b, k);
    }
  }

  /** Every signal of four or more cells makes the transform as written read
      index n, one past the end of the vector, at the stage s = n / 2. */
  lemma ChunkedAsWrittenFaults(x: seq<Complex>, root: nat -> Complex)
    requires IsPow2(|x|) && |x| >= 4
    ensures ChunkedAsWritten(x, root) == OutOfRange(|x|)
  {
    var n := |x|;
    var b := Log2(n);
    Pow2Monotone(2, b);
    var y := BitReversed(x);
    ChunkedStagesEarly(y, root, b, b - 2);
    var z := Stages(y, b - 2, root);
    assert Pow2(b - 1) == n / 2;
    ChunkedStageHalfFaults(z, root(Pow2(b - 1)), b);
    assert ChunkedStagesAsWritten(y, b - 1, root) == OutOfRange(n);
  }

  /** The two-point butterfly leaves a pair unchanged only when both are zero. */
  lemma PairFixed(x0: Complex, x1: Complex)
    ensures [Add(x0, x1), Sub(x0, x1)] == [x0, x1] <==> x0 == Zero && x1 == Zero
  {
    var u, d := Add(x0, x1), Sub(x0, x1);
    assert [u, d] == [x0, x1] <==> u == x0 && d == x1 by {
      if [u, d] == [x0, x1] {
        assert [u, d][0] == u && [u, d][1] == d;
      }
    }
    ButterflyFixed(x0, x1);
  }

  /** Cell-wise: x0 + x1 == x0 forces x1 to zero, and then x0 - 0 == 0 forces x0. */
  lemma ButterflyFixed(x0: Complex, x1: Complex)
    ensures Add(x0, x1) == x0 && Sub(x0, x1) == x1 <==> x0 == Zero && x1 == Zero
  {
    if Add(x0, x1) == x0 && Sub(x0, x1) == x1 {
      assert x0.re + x1.re == x0.re && x0.im + x1.im == x0.im;
      assert x0.re - x1.re == x1.re && x0.im - x1.im == x1.im;
    }
  }

  /** With two cells every chunk is empty: the as-written transform returns
      its input, which is the transform only for the zero signal. */
  lemma ChunkedAsWrittenPair(x0: Complex, x1: Complex, root: nat -> Complex)
    ensures IsPow2(2)
    ensures ChunkedAsWritten([x0, x1], root) == Done([x0, x1])
    ensures ChunkedAsWritten([x0, x1], root) == Done(IterativeSpec([x0, x1], root)) <==> x0 == Zero && x1 == Zero
  {
    var x := [x0, x1];
    assert Log2(2) == 1 && Pow2(1) == 2;
    assert Rev(1, 1) == 1 && Rev(0, 1) == 0;
    assert BitReversed(x) == x;
    ChunkedStageTiny(x, 2, root(2));
    assert ChunkedStagesAsWritten(x, 1, root) == Done(x);
    IterativeSpecPair(x0, x1, root);
    PairFixed(x0, x1);
  }
}
