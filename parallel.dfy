/** The two pooled transforms of fftlib.cpp: `fft_parallel_butterfly`, one
    task per block, and `fft_parallel_chunking` with its chunk count
    corrected (the chunking as written is in module ChunkingAsWritten). */
module Parallel {
  import opened ComplexArith
  import opened PowerOfTwo
  import opened BitReversal
  import opened Butterfly
  import opened Iterative
  import opened TaskPool

  /** The queue `fft_parallel_butterfly` builds for the stage with block
      length s: one group task per block, in block order. */
  function GroupQueue(n: nat, s: nat): (q: seq<Task>)
    requires s > 0
    ensures |q| == n / s
  {
    seq(n / s, t requires 0 <= t < n / s => Group(t * s))
  }

  /** The group tasks split the stage. */
  lemma GroupQueuePartition(n: nat, s: nat)
    requires StageShape(n, s)
    ensures Partition(GroupQueue(n, s), s, n)
  {
    var queue := GroupQueue(n, s);
    forall c | 0 <= c < |queue|
      ensures DistinctAligned(TaskBlocks(queue[c], s), s, n)
    {
      MultipleBelow(c, s, n);
    }
    forall c, d | 0 <= c < |queue| && 0 <= d < |queue| && c != d
      ensures Disjoint(TaskBlocks(queue[c], s), TaskBlocks(queue[d], s))
    {
      if c < d {
        MultipleStrict(c, d, s);
      } else {
        MultipleStrict(d, c, s);
      }
    }
    forall k | 0 <= k < n
      ensures exists c :: 0 <= c < |queue| && k - k % s in TaskBlocks(queue[c], s)
    {
      CellQuotient(k, s, n);
      assert k - k % s in TaskBlocks(queue[k / s], s);
    }
    assert TasksSplit(queue, s, n);
    assert TasksCover(queue, s, n);
  }

  /** The enqueue loop `for (int i = 0; i < n; i += s)` of one stage. */
  method EnqueueGroups(n: nat, s: nat) returns (queue: seq<Task>)
    requires StageShape(n, s)
    ensures queue == GroupQueue(n, s)
  {
    queue := [];
    var i := 0;
    while i < n
      invariant i == |queue| * s && i <= n && i % s == 0
      invariant forall t :: 0 <= t < |queue| ==> queue[t] == Group(t * s)
    {
      BlockFits(i, s, n);
      AlignedStep(i, s);
      queue := queue + [Group(i)];
      i := i + s;
    }
    DivModUnique(n, s, |queue|, 0);
  }

  /** One stage of `fft_parallel_butterfly`: enqueue a task per block, then
      `wait_all`, the pool finishing the tasks in the given order. */
  method GroupStage(a: array<Complex>, s: nat, wn: Complex, order: seq<nat>)
    requires StageShape(a.Length, s) && IsOrder(order, a.Length / s)
    modifies a
    ensures a[..] == Stage(old(a[..]), s, wn)
  {
    var queue := EnqueueGroups(a.Length, s);
    GroupQueuePartition(a.Length, s);
    PartitionRunnable(queue, s, a.Length);
    TasksComputeStage(a[..], queue, order, s, wn);
    WaitAll(a, queue, order, s, wn);
  }

  /** schedule(s) is an order in which the pool may finish the stage-s group tasks. */
  ghost predicate GroupSchedule(schedule: nat -> seq<nat>, n: nat)
  {
    forall k :: 1 <= k && Pow2(k) <= n ==> IsOrder(schedule(Pow2(k)), n / Pow2(k))
  }

  /** The stage loop of `fft_parallel_butterfly` over a signal of length 2^b. */
  method GroupStages(a: array<Complex>, root: nat -> Complex, schedule: nat -> seq<nat>, ghost b: nat)
    requires a.Length == Pow2(b) && GroupSchedule(schedule, a.Length)
    modifies a
    ensures a.Length % Pow2(b) == 0
    ensures a[..] == Stages(old(a[..]), b, root)
  {
    var n := a.Length;
    ghost var y := a[..];
    var s := 2;
    ghost var k := 1;
    Pow2Divides(0, b);
    while s <= n
      invariant 1 <= k <= b + 1 && s == Pow2(k)
      invariant n % Pow2(k - 1) == 0
      invariant a[..] == Stages(y, k - 1, root)
    {
      Pow2Monotone(k, b);
      Pow2Divides(k, b);
      HalfDivides(n, k);
      var wn := root(s);
      GroupStage(a, s, wn, schedule(s));
      s := s * 2;
      k := k + 1;
    }
    Pow2Monotone(k, b);
  }

  /** `fft_parallel_butterfly`: the same result as the serial transform,
      whatever order the pool runs each stage's tasks in. */
  method FftParallelButterfly(a: array<Complex>, root: nat -> Complex, schedule: nat -> seq<nat>)
    requires ValidLength(a.Length) && GroupSchedule(schedule, a.Length)
    modifies a
    ensures a[..] == IterativeSpec(old(a[..]), root)
  {
    var n := a.Length;
    if n <= 1 {
      return;
    }
    ghost var x := a[..];
    ghost var b := Log2(n);
    Pow2Monotone(1, b);
    BitReversePermute(a);
    GroupStages(a, root, schedule, b);
    IterativeSpecUnfold(x, root, b);
  }

  /** The number of chunks of a stage: four, or one per block when a stage
      has fewer than four blocks. */
  function ChunkCount(n: nat, s: nat): (c: nat)
    requires s > 0
    ensures c <= 4 && c <= n / s
    ensures n >= s ==> c >= 1
  {
    if n / s >= 4 then 4 else n / s
  }

  /** count chunk tasks of `size` cells each, chunk c covering [c * size, (c + 1) * size). */
  function ChunkTasks(count: nat, size: nat): (q: seq<Task>)
    ensures |q| == count
  {
    seq(count, c requires 0 <= c < count => Chunk(c * size, (c + 1) * size))
  }

  /** The queue of chunk tasks for the stage with block length s, with
      chunk size n / ChunkCount(n, s). */
  function ChunkQueue(n: nat, s: nat): (q: seq<Task>)
    requires s > 0
    ensures |q| == ChunkCount(n, s)
  {
    var count := ChunkCount(n, s);
    if count == 0 then [] else ChunkTasks(count, n / count)
  }

  /** Block t of chunk c lies in the chunk's range and is aligned. */
  lemma ChunkMember(c: nat, m: nat, s: nat, t: nat)
    requires s > 0 && t < m
    ensures c * (m * s) <= c * (m * s) + t * s < (c + 1) * (m * s)
    ensures (c * (m * s) + t * s) % s == 0
  {
    assert c * (m * s) + t * s == (c * m + t) * s;
    DivModUnique((c * m + t) * s, s, c * m + t, 0);
    MultipleStrict(t, m, s);
  }

  /** A chunk of m whole blocks visits the starts of those m blocks. */
  lemma ChunkBlocks(c: nat, m: nat, s: nat)
    requires s > 0
    ensures TaskBlocks(Chunk(c * (m * s), (c + 1) * (m * s)), s) == Starts(c * (m * s), s, m)
  {
    assert (c + 1) * (m * s) == c * (m * s) + m * s;
    IterationsExact(c * (m * s), m, s);
  }

  /** The blocks of one chunk are aligned, in range and different. */
  lemma ChunkDistinctAligned(n: nat, s: nat, count: nat, m: nat, c: nat)
    requires s > 0 && m >= 1 && n == count * (m * s) && c < count
    ensures DistinctAligned(Starts(c * (m * s), s, m), s, n)
  {
    var size := m * s;
    var blocks := Starts(c * size, s, m);
    if c + 1 < count {
      MultipleStrict(c + 1, count, size);
    }
    forall t | 0 <= t < m
      ensures blocks[t] % s == 0 && blocks[t] < n
    {
      ChunkMember(c, m, s, t);
    }
    forall t, u | 0 <= t < u < m
      ensures blocks[t] != blocks[u]
    {
      MultipleStrict(t, u, s);
    }
  }

  /** Two different chunks share no block. */
  lemma ChunksDisjoint(s: nat, m: nat, c: nat, d: nat)
    requires s > 0 && m >= 1 && c < d
    ensures Disjoint(Starts(c * (m * s), s, m), Starts(d * (m * s), s, m))
    ensures Disjoint(Starts(d * (m * s), s, m), Starts(c * (m * s), s, m))
  {
    var size := m * s;
    if c + 1 < d {
      MultipleStrict(c + 1, d, size);
    }
    forall t, u | 0 <= t < m && 0 <= u < m
      ensures Starts(c * size, s, m)[t] != Starts(d * size, s, m)[u]
    {
      ChunkMember(c, m, s, t);
      ChunkMember(d, m, s, u);
    }
  }

  /** The block of cell k is block k % size / s of chunk k / size. */
  lemma ChunkCovers(n: nat, s: nat, count: nat, m: nat, k: nat)
    requires s > 0 && m >= 1 && n == count * (m * s) && k < n
    ensures k / (m * s) < count
    ensures k - k % s in Starts(k / (m * s) * (m * s), s, m)
  {
    var size := m * s;
    DivModUnique(n, size, count, 0);
    CellQuotient(k, size, n);
    var c, r := k / size, k % size;
    DivModUnique(size, s, m, 0);
    CellQuotient(r, s, size);
    var t := r / s;
    assert k == (c * m + t) * s + r % s;
    DivModUnique(k, s, c * m + t, r % s);
    assert k - k % s == Starts(c * size, s, m)[t];
  }

  /** Each chunk's blocks are aligned, in range and different. */
  lemma ChunkTasksAligned(n: nat, s: nat, count: nat, m: nat)
    requires s > 0 && m >= 1 && n == count * (m * s)
    ensures forall c :: 0 <= c < count ==> DistinctAligned(TaskBlocks(ChunkTasks(count, m * s)[c], s), s, n)
  {
    forall c | 0 <= c < count
      ensures DistinctAligned(TaskBlocks(ChunkTasks(count, m * s)[c], s), s, n)
    {
      ChunkBlocks(c, m, s);
      ChunkDistinctAligned(n, s, count, m, c);
    }
  }

  /** No block belongs to two chunks. */
  lemma ChunkTasksDisjoint(s: nat, count: nat, m: nat)
    requires s > 0 && m >= 1
    ensures forall c, d :: 0 <= c < count && 0 <= d < count && c != d ==>
      Disjoint(TaskBlocks(ChunkTasks(count, m * s)[c], s), TaskBlocks(ChunkTasks(count, m * s)[d], s))
  {
    var queue := ChunkTasks(count, m * s);
    forall c, d | 0 <= c < count && 0 <= d < count && c != d
      ensures Disjoint(TaskBlocks(queue[c], s), TaskBlocks(queue[d], s))
    {
      ChunkBlocks(c, m, s);
      ChunkBlocks(d, m, s);
      if c < d {
        ChunksDisjoint(s, m, c, d);
      } else {
        ChunksDisjoint(s, m, d, c);
      }
    }
  }

  /** Every block belongs to some chunk. */
  lemma ChunkTasksCover(n: nat, s: nat, count: nat, m: nat)
    requires s > 0 && m >= 1 && n == count * (m * s)
    ensures TasksCover(ChunkTasks(count, m * s), s, n)
  {
    var queue := ChunkTasks(count, m * s);
    forall k: int | 0 <= k < n
      ensures exists c :: 0 <= c < |queue| && k - k % s in TaskBlocks(queue[c], s)
    {
      ChunkCovers(n, s, count, m, k);
      ChunkBlocks(k / (m * s), m, s);
      assert k - k % s in TaskBlocks(queue[k / (m * s)], s);
    }
  }

  /** Chunks of m whole blocks each split a stage of count * m blocks. */
  lemma ChunksPartition(n: nat, s: nat, count: nat, m: nat)
    requires StageShape(n, s) && m >= 1 && n == count * (m * s)
    ensures Partition(ChunkTasks(count, m * s), s, n)
  {
    ChunkTasksAligned(n, s, count, m);
    ChunkTasksDisjoint(s, count, m);
    ChunkTasksCover(n, s, count, m);
  }

  /** The corrected chunk tasks split every stage of a power-of-two signal. */
  lemma ChunkQueuePartition(n: nat, s: nat, b: nat, k: nat)
    requires n == Pow2(b) && s == Pow2(k) && 1 <= k <= b
    ensures Partition(ChunkQueue(n, s), s, n)
  {
    Pow2Divides(k, b);
    Pow2Divides(1, k);
    var count := ChunkCount(n, s);
    if b - k >= 2 {
      Pow2Monotone(2, b - k);
      Pow2Add(b - k - 2, k);
      Pow2Divides(2, b);
      assert count == 4 && n / 4 == Pow2(b - 2);
      ChunksPartition(n, s, 4, Pow2(b - k - 2));
    } else {
      Pow2Monotone(b - k, 1);
      DivModUnique(n, count, s, 0);
      ChunksPartition(n, s, count, 1);
    }
  }

  /** The enqueue loop over chunks, each task computing its own
      `start = chunk * chunkSize` and `end = (chunk + 1) * chunkSize`. */
  method EnqueueChunks(n: nat, s: nat) returns (queue: seq<Task>)
    requires s > 0
    ensures queue == ChunkQueue(n, s)
  {
    var count := ChunkCount(n, s);
    queue := [];
    if count == 0 {
      return;
    }
    var chunkSize := n / count;
    for chunk := 0 to count
      invariant |queue| == chunk
      invariant forall c :: 0 <= c < chunk ==> queue[c] == Chunk(c * chunkSize, (c + 1) * chunkSize)
    {
      queue := queue + [Chunk(chunk * chunkSize, (chunk + 1) * chunkSize)];
    }
  }

  /** One stage of the chunked transform: enqueue the chunks, then `wait_all`. */
  method ChunkStage(a: array<Complex>, s: nat, wn: Complex, order: seq<nat>, ghost b: nat, ghost k: nat)
    requires a.Length == Pow2(b) && s == Pow2(k) && 1 <= k <= b
    requires IsOrder(order, ChunkCount(a.Length, s))
    modifies a
    ensures StageShape(a.Length, s)
    ensures a[..] == Stage(old(a[..]), s, wn)
  {
    var queue := EnqueueChunks(a.Length, s);
    ChunkQueuePartition(a.Length, s, b, k);
    PartitionRunnable(queue, s, a.Length);
    TasksComputeStage(a[..], queue, order, s, wn);
    WaitAll(a, queue, order, s, wn);
  }

  /** schedule(s) is an order in which the pool may finish the stage-s chunks. */
  ghost predicate ChunkSchedule(schedule: nat -> seq<nat>, n: nat)
  {
    forall k :: 1 <= k && Pow2(k) <= n ==> IsOrder(schedule(Pow2(k)), ChunkCount(n, Pow2(k)))
  }

  /** The stage loop of the chunked transform over a signal of length 2^b. */
  method ChunkStages(a: array<Complex>, root: nat -> Complex, schedule: nat -> seq<nat>, ghost b: nat)
    requires a.Length == Pow2(b) && ChunkSchedule(schedule, a.Length)
    modifies a
    ensures a.Length % Pow2(b) == 0
    ensures a[..] == Stages(old(a[..]), b, root)
  {
    var n := a.Length;
    ghost var y := a[..];
    var s := 2;
    ghost var k := 1;
    Pow2Divides(0, b);
    while s <= n
      invariant 1 <= k <= b + 1 && s == Pow2(k)
      invariant n % Pow2(k - 1) == 0
      invariant a[..] == Stages(y, k - 1, root)
    {
      Pow2Monotone(k, b);
      Pow2Divides(k, b);
      HalfDivides(n, k);
      var wn := root(s);
      assert IsOrder(schedule(s), ChunkCount(n, s));
      ChunkStage(a, s, wn, schedule(s), b, k);
      s := s * 2;
      k := k + 1;
    }
    Pow2Monotone(k, b);
  }

  /** `fft_parallel_chunking` with the corrected chunk count: the same result
      as the serial transform, whatever order the pool runs the chunks in. */
  method FftParallelChunking(a: array<Complex>, root: nat -> Complex, schedule: nat -> seq<nat>)
    requires ValidLength(a.Length) && ChunkSchedule(schedule, a.Length)
    modifies a
    ensures a[..] == IterativeSpec(old(a[..]), root)
  {
    var n := a.Length;
    if n <= 1 {
      return;
    }
    ghost var x := a[..];
    ghost var b := Log2(n);
    Pow2Monotone(1, b);
    BitReversePermute(a);
    ChunkStages(a, root, schedule, b);
    IterativeSpecUnfold(x, root, b);
  }
}
