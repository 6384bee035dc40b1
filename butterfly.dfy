/** The butterfly network shared by the iterative and the parallel transforms:
    one block of butterflies, one stage of blocks, and the disjointness of
    blocks that lets a stage's blocks run in any order. */
module Butterfly {
  import opened ComplexArith
  import opened PowerOfTwo

  /** A stage with block length s: s is even and the signal splits into whole blocks. */
  predicate StageShape(n: nat, s: nat)
  {
    s >= 2 && s % 2 == 0 && n % s == 0
  }

  /** The value of cell k after the first `done` butterflies of the block
      [i, i + s) have run on x. Butterfly j combines u = x[i+j] with
      t = w * x[i+j+s/2], where w is the j-th power of the stage rotation wn,
      into u + t and u - t. */
  function BlockCell(x: seq<Complex>, i: nat, s: nat, wn: Complex, done: nat, k: nat): Complex
    requires i + s <= |x| && done <= s / 2 && k < |x|
  {
    var h := s / 2;
    if i <= k < i + done then Add(x[k], Mul(Power(wn, k - i), x[k + h]))
    else if i + h <= k < i + h + done then Sub(x[k - h], Mul(Power(wn, k - i - h), x[k]))
    else x[k]
  }

  /** The signal after the first `done` butterflies of the block at i. */
  function PartialBlock(x: seq<Complex>, i: nat, s: nat, wn: Complex, done: nat): (r: seq<Complex>)
    requires i + s <= |x| && done <= s / 2
    ensures |r| == |x|
  {
    seq(|x|, k requires 0 <= k < |x| => BlockCell(x, i, s, wn, done, k))
  }

  /** The signal after the whole block at i. */
  function Block(x: seq<Complex>, i: nat, s: nat, wn: Complex): (r: seq<Complex>)
    requires i + s <= |x|
    ensures |r| == |x|
  {
    PartialBlock(x, i, s, wn, s / 2)
  }

  /** A block changes only its own cells. */
  lemma BlockFrame(x: seq<Complex>, i: nat, s: nat, wn: Complex, k: nat)
    requires i + s <= |x| && k < |x| && !(i <= k < i + s)
    ensures Block(x, i, s, wn)[k] == x[k]
  {
  }

  /** A block reads only its own cells: two signals that agree on [i, i + s)
      give the same values there. */
  lemma BlockLocal(x: seq<Complex>, y: seq<Complex>, i: nat, s: nat, wn: Complex, k: nat)
    requires |x| == |y| && i + s <= |x| && i <= k < i + s
    requires forall m :: i <= m < i + s ==> x[m] == y[m]
    ensures Block(x, i, s, wn)[k] == Block(y, i, s, wn)[k]
  {
  }

  /** The value of cell k after the stage with block length s. */
  function StageCell(x: seq<Complex>, s: nat, wn: Complex, k: nat): Complex
    requires StageShape(|x|, s) && k < |x|
  {
    CellBlockFits(k, s, |x|);
    BlockCell(x, k - k % s, s, wn, s / 2, k)
  }

  /** A stage cell reads only the cells of its own block. */
  lemma StageCellLocal(x: seq<Complex>, y: seq<Complex>, s: nat, wn: Complex, k: nat)
    requires |x| == |y| && StageShape(|x|, s) && k < |x|
    requires forall m :: 0 <= m < |x| && m - m % s == k - k % s ==> x[m] == y[m]
    ensures StageCell(x, s, wn, k) == StageCell(y, s, wn, k)
  {
    CellBlockFits(k, s, |x|);
    var b, h := k - k % s, s / 2;
    BlockOf(k, s, b);
    if k < b + h {
      BlockOf(k + h, s, b);
      assert x[k] == y[k] && x[k + h] == y[k + h];
    } else {
      BlockOf(k - h, s, b);
      assert x[k - h] == y[k - h] && x[k] == y[k];
    }
  }

  /** One stage: every block [i, i + s) with i = 0, s, 2s, ... combined. */
  function Stage(x: seq<Complex>, s: nat, wn: Complex): (r: seq<Complex>)
    requires StageShape(|x|, s)
    ensures |r| == |x|
  {
    seq(|x|, k requires 0 <= k < |x| => StageCell(x, s, wn, k))
  }

  /** The block starts lo, lo + s, ..., lo + (c - 1) * s that a loop
      `for (i = lo; ...; i += s)` visits in c steps. */
  function Starts(lo: nat, s: nat, c: nat): (r: seq<nat>)
    ensures |r| == c
  {
    seq(c, t requires 0 <= t < c => lo + t * s)
  }

  /** Every block of the list lies inside the signal. */
  predicate InRange(starts: seq<nat>, s: nat, n: nat)
  {
    forall t :: 0 <= t < |starts| ==> starts[t] + s <= n
  }

  /** Running the blocks of a list one after another, first to last. */
  function RunBlocks(x: seq<Complex>, starts: seq<nat>, s: nat, wn: Complex): (r: seq<Complex>)
    requires InRange(starts, s, |x|)
    ensures |r| == |x|
  {
    if starts == [] then x
    else Block(RunBlocks(x, starts[..|starts| - 1], s, wn), starts[|starts| - 1], s, wn)
  }

  /** Running two lists in turn is running their concatenation. */
  lemma {:induction false} RunBlocksAppend(x: seq<Complex>, l1: seq<nat>, l2: seq<nat>, s: nat, wn: Complex)
    requires InRange(l1, s, |x|) && InRange(l2, s, |x|)
    ensures InRange(l1 + l2, s, |x|)
    ensures RunBlocks(x, l1 + l2, s, wn) == RunBlocks(RunBlocks(x, l1, s, wn), l2, s, wn)
    decreases |l2|
  {
    if l2 != [] {
      var l2' := l2[..|l2| - 1];
      assert (l1 + l2)[..|l1 + l2| - 1] == l1 + l2';
      RunBlocksAppend(x, l1, l2', s, wn);
    } else {
      assert l1 + l2 == l1;
    }
  }

  /** The blocks of a list are aligned to s, lie in [0, n) and are pairwise different. */
  predicate DistinctAligned(starts: seq<nat>, s: nat, n: nat)
  {
    && s > 0
    && (forall t :: 0 <= t < |starts| ==> starts[t] % s == 0 && starts[t] < n)
    && (forall t, u :: 0 <= t < u < |starts| ==> starts[t] != starts[u])
  }

  /** Disjointness of aligned blocks: running any list of distinct aligned
      blocks leaves each covered cell with its stage value and every other
      cell untouched, whatever the order of the list. */
  lemma {:induction false} RunBlocksCells(x: seq<Complex>, starts: seq<nat>, s: nat, wn: Complex)
    requires StageShape(|x|, s) && DistinctAligned(starts, s, |x|)
    ensures InRange(starts, s, |x|)
    ensures forall k :: 0 <= k < |x| ==>
      RunBlocks(x, starts, s, wn)[k] == if k - k % s in starts then StageCell(x, s, wn, k) else x[k]
    decreases |starts|
  {
    forall t | 0 <= t < |starts|
      ensures starts[t] + s <= |x|
    {
      BlockFits(starts[t], s, |x|);
    }
    if starts != [] {
      var init := starts[..|starts| - 1];
      var last := starts[|starts| - 1];
      RunBlocksCells(x, init, s, wn);
      var y := RunBlocks(x, init, s, wn);
      assert last !in init;
      forall m | last <= m < last + s
        ensures y[m] == x[m]
      {
        BlockOf(m, s, last);
      }
      forall k | 0 <= k < |x|
        ensures RunBlocks(x, starts, s, wn)[k] == if k - k % s in starts then StageCell(x, s, wn, k) else x[k]
      {
        CellBlockFits(k, s, |x|);
        if last <= k < last + s {
          BlockOf(k, s, last);
          BlockLocal(y, x, last, s, wn, k);
        } else {
          assert k - k % s != last;
        }
      }
    }
  }

  /** The blocks of a stage partition [0, n): the list of starts 0, s, ..., n - s
      is aligned and repetition-free, and every cell's block is in it. */
  lemma StartsPartition(n: nat, s: nat)
    requires StageShape(n, s)
    ensures DistinctAligned(Starts(0, s, n / s), s, n)
    ensures forall k :: 0 <= k < n ==> k - k % s in Starts(0, s, n / s)
  {
    var starts := Starts(0, s, n / s);
    forall t | 0 <= t < |starts|
      ensures starts[t] % s == 0 && starts[t] < n
    {
      MultipleBelow(t, s, n);
    }
    forall t, u | 0 <= t < u < |starts|
      ensures starts[t] != starts[u]
    {
      MultipleStrict(t, u, s);
    }
    forall k | 0 <= k < n
      ensures k - k % s in starts
    {
      CellQuotient(k, s, n);
      assert starts[k / s] == k - k % s;
    }
  }

  /** A list of blocks that contains every block of the stage once, in any
      order, computes the stage. */
  lemma StageAnyOrder(x: seq<Complex>, starts: seq<nat>, s: nat, wn: Complex)
    requires StageShape(|x|, s) && DistinctAligned(starts, s, |x|)
    requires forall k :: 0 <= k < |x| ==> k - k % s in starts
    ensures InRange(starts, s, |x|)
    ensures RunBlocks(x, starts, s, wn) == Stage(x, s, wn)
  {
    RunBlocksCells(x, starts, s, wn);
  }

  /** The block starts of the serial loop compute the stage. */
  lemma StageBySerialBlocks(x: seq<Complex>, s: nat, wn: Complex)
    requires StageShape(|x|, s)
    ensures InRange(Starts(0, s, |x| / s), s, |x|)
    ensures RunBlocks(x, Starts(0, s, |x| / s), s, wn) == Stage(x, s, wn)
  {
    StartsPartition(|x|, s);
    StageAnyOrder(x, Starts(0, s, |x| / s), s, wn);
  }

  /** Before butterfly j, its two cells still hold their inputs. */
  lemma PartialBlockPending(x: seq<Complex>, i: nat, s: nat, wn: Complex, j: nat)
    requires i + s <= |x| && j < s / 2
    ensures PartialBlock(x, i, s, wn, j)[i + j] == x[i + j]
    ensures PartialBlock(x, i, s, wn, j)[i + j + s / 2] == x[i + j + s / 2]
  {
  }

  /** Butterfly j of the block at i writes cells i + j and i + j + s/2. */
  lemma PartialBlockStep(x: seq<Complex>, i: nat, s: nat, wn: Complex, j: nat)
    requires i + s <= |x| && j < s / 2
    ensures PartialBlock(x, i, s, wn, j)
              [i + j := Add(x[i + j], Mul(Power(wn, j), x[i + j + s / 2]))]
              [i + j + s / 2 := Sub(x[i + j], Mul(Power(wn, j), x[i + j + s / 2]))]
         == PartialBlock(x, i, s, wn, j + 1)
  {
  }

  /** The inner loop over offsets j of one block: a butterfly writes
      exactly the two cells i + j and i + j + s/2; w starts at `Complex(1)`
      and is multiplied by wn after each butterfly. */
  method ButterflyBlock(a: array<Complex>, i: nat, s: nat, wn: Complex)
    requires i + s <= a.Length
    modifies a
    ensures a[..] == Block(old(a[..]), i, s, wn)
  {
    ghost var x := a[..];
    var w := One;
    var j := 0;
    while j < s / 2
      invariant j <= s / 2
      invariant w == Power(wn, j)
      invariant a[..] == PartialBlock(x, i, s, wn, j)
    {
      PartialBlockPending(x, i, s, wn, j);
      var t := Mul(w, a[i + j + s / 2]);
      var u := a[i + j];
      PartialBlockStep(x, i, s, wn, j);
      ghost var before := a[..];
      a[i + j] := Add(u, t);
      a[i + j + s / 2] := Sub(u, t);
      assert a[..] == before[i + j := Add(u, t)][i + j + s / 2 := Sub(u, t)];
      w := Mul(w, wn);
      j := j + 1;
    }
  }
}
