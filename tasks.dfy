/** The work the parallel transforms hand to their thread pool for one
    stage, and what `wait_all` leaves behind once every queued task has run.
    The pool itself is outside this model: its workers may finish the tasks
    in any order, so the order is a parameter. */
module TaskPool {
  import opened ComplexArith
  import opened PowerOfTwo
  import opened Butterfly

  /** One enqueued closure. `Group(i)` is the task of `fft_parallel_butterfly`:
      the butterflies of the block at i. `Chunk(lo, hi)` is the task of
      `fft_parallel_chunking`: the blocks at lo, lo + s, ... below hi. */
  datatype Task = Group(i: nat) | Chunk(lo: nat, hi: nat)

  /** The number of rounds of `for (int i = lo; i < hi; i += s)`. */
  function Iterations(lo: nat, hi: nat, s: nat): (c: nat)
    requires s > 0
    ensures c == 0 <==> lo >= hi
    decreases hi - lo
  {
    if lo >= hi then 0 else 1 + Iterations(lo + s, hi, s)
  }

  /** A range of m whole blocks takes exactly m rounds. */
  lemma {:induction false} IterationsExact(lo: nat, m: nat, s: nat)
    requires s > 0
    ensures Iterations(lo, lo + m * s, s) == m
    decreases m
  {
    if m > 0 {
      assert lo + m * s == (lo + s) + (m - 1) * s;
      IterationsExact(lo + s, m - 1, s);
    }
  }

  /** The block starts a task visits, in its own order. */
  function TaskBlocks(task: Task, s: nat): (r: seq<nat>)
    requires s > 0
  {
    match task
    case Group(i) => [i]
    case Chunk(lo, hi) => Starts(lo, s, Iterations(lo, hi, s))
  }

  /** Every block of every task lies inside a signal of length n. */
  predicate Runnable(queue: seq<Task>, s: nat, n: nat)
    requires s > 0
  {
    forall c :: 0 <= c < |queue| ==> InRange(TaskBlocks(queue[c], s), s, n)
  }

  /** The body of a chunk task: `for (int i = lo; i < hi; i += s)` over
      whole blocks. */
  method RunChunk(a: array<Complex>, lo: nat, hi: nat, s: nat, wn: Complex)
    requires s > 0 && InRange(Starts(lo, s, Iterations(lo, hi, s)), s, a.Length)
    modifies a
    ensures a[..] == RunBlocks(old(a[..]), Starts(lo, s, Iterations(lo, hi, s)), s, wn)
  {
    ghost var x := a[..];
    ghost var all := Starts(lo, s, Iterations(lo, hi, s));
    var i := lo;
    ghost var c := 0;
    while i < hi
      invariant i == lo + c * s
      invariant c + Iterations(i, hi, s) == |all|
      invariant a[..] == RunBlocks(x, all[..c], s, wn)
    {
      assert all[c] == i;
      ButterflyBlock(a, i, s, wn);
      assert all[..c + 1][..c] == all[..c];
      i := i + s;
      c := c + 1;
    }
    assert all[..c] == all;
  }

  /** A worker running one task. */
  method RunTask(a: array<Complex>, task: Task, s: nat, wn: Complex)
    requires s > 0 && InRange(TaskBlocks(task, s), s, a.Length)
    modifies a
    ensures a[..] == RunBlocks(old(a[..]), TaskBlocks(task, s), s, wn)
  {
    match task
    case Group(i) =>
      ghost var x := a[..];
      assert TaskBlocks(task, s)[0] == i;
      ButterflyBlock(a, i, s, wn);
      assert TaskBlocks(task, s)[..0] == [];
      assert RunBlocks(x, TaskBlocks(task, s), s, wn) == Block(x, i, s, wn);
    case Chunk(lo, hi) =>
      RunChunk(a, lo, hi, s, wn);
  }

  /** order lists the task numbers below c, each once: a completion order of c tasks. */
  predicate IsOrder(order: seq<nat>, c: nat)
  {
    && |order| == c
    && (forall t :: 0 <= t < |order| ==> order[t] < c)
    && (forall t, u :: 0 <= t < u < |order| ==> order[t] != order[u])
    && (forall q :: 0 <= q < c ==> q in order)
  }

  /** The signal after the first t tasks of the completion order have run. */
  function RunTasks(x: seq<Complex>, queue: seq<Task>, order: seq<nat>, t: nat, s: nat, wn: Complex): (r: seq<Complex>)
    requires s > 0 && Runnable(queue, s, |x|) && t <= |order|
    requires forall u :: 0 <= u < |order| ==> order[u] < |queue|
    ensures |r| == |x|
  {
    if t == 0 then x
    else RunBlocks(RunTasks(x, queue, order, t - 1, s, wn), TaskBlocks(queue[order[t - 1]], s), s, wn)
  }

  /** `pool.wait_all()`: returns once every queued task has run, the tasks
      finishing in the given order. */
  method WaitAll(a: array<Complex>, queue: seq<Task>, order: seq<nat>, s: nat, wn: Complex)
    requires s > 0 && Runnable(queue, s, a.Length) && IsOrder(order, |queue|)
    modifies a
    ensures a[..] == RunTasks(old(a[..]), queue, order, |order|, s, wn)
  {
    ghost var x := a[..];
    for t := 0 to |order|
      invariant a[..] == RunTasks(x, queue, order, t, s, wn)
    {
      RunTask(a, queue[order[t]], s, wn);
    }
  }

  /** No block start is in both lists. */
  predicate Disjoint(l1: seq<nat>, l2: seq<nat>)
  {
    forall i :: i in l1 ==> i !in l2
  }

  /** The tasks of a stage split its blocks: each task's blocks are aligned
      and different, no block belongs to two tasks, and every block belongs
      to some task. */
  ghost predicate Partition(queue: seq<Task>, s: nat, n: nat)
  {
    StageShape(n, s) && TasksSplit(queue, s, n) && TasksCover(queue, s, n)
  }

  /** Each task's blocks are aligned and different, and no block belongs to two tasks. */
  predicate TasksSplit(queue: seq<Task>, s: nat, n: nat)
    requires s > 0
  {
    && (forall c :: 0 <= c < |queue| ==> DistinctAligned(TaskBlocks(queue[c], s), s, n))
    && (forall c, d :: 0 <= c < |queue| && 0 <= d < |queue| && c != d ==>
          Disjoint(TaskBlocks(queue[c], s), TaskBlocks(queue[d], s)))
  }

  /** Every block of the stage belongs to some task. */
  ghost predicate TasksCover(queue: seq<Task>, s: nat, n: nat)
    requires s > 0
  {
    forall k :: 0 <= k < n ==> exists c :: 0 <= c < |queue| && k - k % s in TaskBlocks(queue[c], s)
  }

  /** Split tasks stay inside the signal. */
  lemma PartitionRunnable(queue: seq<Task>, s: nat, n: nat)
    requires StageShape(n, s) && TasksSplit(queue, s, n)
    ensures Runnable(queue, s, n)
  {
    forall c, t | 0 <= c < |queue| && 0 <= t < |TaskBlocks(queue[c], s)|
      ensures TaskBlocks(queue[c], s)[t] + s <= n
    {
      BlockFits(TaskBlocks(queue[c], s)[t], s, n);
    }
  }

  function Members(l: seq<nat>): (r: set<nat>)
    ensures forall i :: i in r <==> i in l
  {
    set t | 0 <= t < |l| :: l[t]
  }

  /** The blocks run by the first t tasks of the order. */
  function Ran(queue: seq<Task>, order: seq<nat>, t: nat, s: nat): set<nat>
    requires s > 0 && t <= |order|
    requires forall u :: 0 <= u < |order| ==> order[u] < |queue|
  {
    if t == 0 then {}
    else Ran(queue, order, t - 1, s) + Members(TaskBlocks(queue[order[t - 1]], s))
  }

  /** A task that has not run yet shares no block with those that have. */
  lemma {:induction false} RanAvoids(queue: seq<Task>, order: seq<nat>, t: nat, c: nat, s: nat)
    requires s > 0 && t <= |order| && c < |queue|
    requires forall u :: 0 <= u < |order| ==> order[u] < |queue|
    requires forall u :: 0 <= u < t ==> order[u] != c
    requires forall d :: 0 <= d < |queue| && d != c ==> Disjoint(TaskBlocks(queue[c], s), TaskBlocks(queue[d], s))
    ensures forall i :: i in TaskBlocks(queue[c], s) ==> i !in Ran(queue, order, t, s)
  {
    if t > 0 {
      RanAvoids(queue, order, t - 1, c, s);
      assert Disjoint(TaskBlocks(queue[c], s), TaskBlocks(queue[order[t - 1]], s));
    }
  }

  /** The blocks of a task that has run are among those run. */
  lemma {:induction false} RanIncludes(queue: seq<Task>, order: seq<nat>, u: nat, t: nat, s: nat)
    requires s > 0 && u < t <= |order|
    requires forall v :: 0 <= v < |order| ==> order[v] < |queue|
    ensures forall i :: i in TaskBlocks(queue[order[u]], s) ==> i in Ran(queue, order, t, s)
  {
    if u < t - 1 {
      RanIncludes(queue, order, u, t - 1, s);
    }
  }

  /** Running one more task whose blocks have not run yet: its cells take
      their stage values and every other cell keeps what it had. */
  lemma TaskStepCells(x: seq<Complex>, y: seq<Complex>, blocks: seq<nat>, before: set<nat>, s: nat, wn: Complex)
    requires StageShape(|x|, s) && |y| == |x| && DistinctAligned(blocks, s, |x|)
    requires forall i :: i in blocks ==> i !in before
    requires forall k :: 0 <= k < |x| ==> y[k] == if k - k % s in before then StageCell(x, s, wn, k) else x[k]
    ensures InRange(blocks, s, |x|)
    ensures forall k :: 0 <= k < |x| ==>
      RunBlocks(y, blocks, s, wn)[k] == if k - k % s in before + Members(blocks) then StageCell(x, s, wn, k) else x[k]
  {
    RunBlocksCells(y, blocks, s, wn);
    forall k | 0 <= k < |x| && k - k % s in blocks
      ensures StageCell(y, s, wn, k) == StageCell(x, s, wn, k)
    {
      StageCellLocal(y, x, s, wn, k);
    }
  }

  /** After the first t tasks of the order, a cell holds its stage value if
      its block has run and its input value otherwise. */
  ghost predicate CellsAfter(x: seq<Complex>, queue: seq<Task>, order: seq<nat>, t: nat, s: nat, wn: Complex)
    requires StageShape(|x|, s) && Runnable(queue, s, |x|) && t <= |order|
    requires forall u :: 0 <= u < |order| ==> order[u] < |queue|
  {
    forall k :: 0 <= k < |x| ==>
      RunTasks(x, queue, order, t, s, wn)[k] == if k - k % s in Ran(queue, order, t, s) then StageCell(x, s, wn, k) else x[k]
  }

  /** Every prefix of a repetition-free order leaves the cells as
      `CellsAfter` describes. */
  lemma {:induction false} RunTasksCells(x: seq<Complex>, queue: seq<Task>, order: seq<nat>, t: nat, s: nat, wn: Complex)
    requires StageShape(|x|, s) && TasksSplit(queue, s, |x|) && Runnable(queue, s, |x|) && t <= |order|
    requires forall u :: 0 <= u < |order| ==> order[u] < |queue|
    requires forall u, v :: 0 <= u < v < |order| ==> order[u] != order[v]
    ensures CellsAfter(x, queue, order, t, s, wn)
  {
    if t > 0 {
      RunTasksCells(x, queue, order, t - 1, s, wn);
      RunTasksCellsStep(x, queue, order, t, order[t - 1], s, wn);
    } else {
      assert RunTasks(x, queue, order, t, s, wn) == x && Ran(queue, order, t, s) == {};
    }
  }

  /** One more task of the order: its blocks, which none of the earlier
      tasks ran, come to their stage values. */
  lemma RunTasksCellsStep(x: seq<Complex>, queue: seq<Task>, order: seq<nat>, t: nat, c: nat, s: nat, wn: Complex)
    requires StageShape(|x|, s) && Runnable(queue, s, |x|) && 0 < t <= |order|
    requires forall u :: 0 <= u < |order| ==> order[u] < |queue|
    requires forall u, v :: 0 <= u < v < |order| ==> order[u] != order[v]
    requires c == order[t - 1] && DistinctAligned(TaskBlocks(queue[c], s), s, |x|)
    requires forall d :: 0 <= d < |queue| && d != c ==> Disjoint(TaskBlocks(queue[c], s), TaskBlocks(queue[d], s))
    requires CellsAfter(x, queue, order, t - 1, s, wn)
    ensures CellsAfter(x, queue, order, t, s, wn)
  {
    RanAvoids(queue, order, t - 1, c, s);
    var prev, blocks, before := RunTasks(x, queue, order, t - 1, s, wn), TaskBlocks(queue[c], s), Ran(queue, order, t - 1, s);
    assert RunTasks(x, queue, order, t, s, wn) == RunBlocks(prev, blocks, s, wn);
    assert Ran(queue, order, t, s) == before + Members(blocks);
    TaskStepCells(x, prev, blocks, before, s, wn);
  }

  /** Disjoint tasks that split a stage compute the stage, whatever order
      the pool finishes them in. */
  lemma TasksComputeStage(x: seq<Complex>, queue: seq<Task>, order: seq<nat>, s: nat, wn: Complex)
    requires Partition(queue, s, |x|) && IsOrder(order, |queue|)
    ensures Runnable(queue, s, |x|)
    ensures RunTasks(x, queue, order, |order|, s, wn) == Stage(x, s, wn)
  {
    PartitionRunnable(queue, s, |x|);
    RunTasksCells(x, queue, order, |order|, s, wn);
    forall k | 0 <= k < |x|
      ensures k - k % s in Ran(queue, order, |order|, s)
    {
      var c :| 0 <= c < |queue| && k - k % s in TaskBlocks(queue[c], s);
      assert c in order;
      var u :| 0 <= u < |order| && order[u] == c;
      RanIncludes(queue, order, u, |order|, s);
    }
  }
}
