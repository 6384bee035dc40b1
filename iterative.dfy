/** The serial in-place transform `fft_iterative` (fftlib.cpp): the
    bit-reversal scan, then stages with block lengths s = 2, 4, ..., n. */
module Iterative {
  import opened ComplexArith
  import opened PowerOfTwo
  import opened BitReversal
  import opened Butterfly

  /** Block length 2^k divides a signal length that 2^(k+1) divides. */
  lemma HalfDivides(n: nat, k: nat)
    requires k >= 1 && n % Pow2(k) == 0
    ensures n % Pow2(k - 1) == 0 && StageShape(n, Pow2(k))
  {
    Pow2Divides(k - 1, k);
    DividesTransitive(n, Pow2(k), Pow2(k - 1));
  }

  /** The stages with block lengths 2, 4, ..., 2^k applied in turn; the
      stage with block length s uses the rotation root(s). */
  function Stages(y: seq<Complex>, k: nat, root: nat -> Complex): (r: seq<Complex>)
    requires |y| % Pow2(k) == 0
    ensures |r| == |y|
  {
    if k == 0 then y
    else
      HalfDivides(|y|, k);
      Stage(Stages(y, k - 1, root), Pow2(k), root(Pow2(k)))
  }

  /** What the serial transform leaves in a signal x: signals of length 0 and 1
      unchanged, any other the stages 2 .. n over the bit-reversed signal. */
  function IterativeSpec(x: seq<Complex>, root: nat -> Complex): (r: seq<Complex>)
    requires ValidLength(|x|)
  {
    if |x| <= 1 then x
    else
      var b := Log2(|x|);
      Pow2Divides(b, b);
      Stages(BitReversed(x), b, root)
  }

  /** Unfolding the transform of a signal of length 2^b, b >= 1. */
  lemma IterativeSpecUnfold(x: seq<Complex>, root: nat -> Complex, b: nat)
    requires b >= 1 && |x| == Pow2(b)
    ensures IsPow2(|x|) && |x| % Pow2(b) == 0
    ensures IterativeSpec(x, root) == Stages(BitReversed(x), b, root)
  {
    Pow2IsPow2(b);
    Pow2Divides(b, b);
  }

  /** The transform keeps the length. */
  lemma IterativeSpecLength(x: seq<Complex>, root: nat -> Complex)
    requires ValidLength(|x|)
    ensures |IterativeSpec(x, root)| == |x|
  {
  }

  /** A one-element signal is its own transform whatever the rotations. */
  lemma IterativeSpecSingle(c: Complex, root: nat -> Complex)
    ensures IterativeSpec([c], root) == [c]
  {
  }

  /** On two elements the transform is the single butterfly (x0 + x1, x0 - x1):
      the first twiddle is always `Complex(1)`. */
  lemma IterativeSpecPair(x0: Complex, x1: Complex, root: nat -> Complex)
    ensures IsPow2(2)
    ensures IterativeSpec([x0, x1], root) == [Add(x0, x1), Sub(x0, x1)]
  {
    var x := [x0, x1];
    assert Log2(2) == 1;
    assert Rev(1, 1) == 1 && Rev(0, 1) == 0;
    assert BitReversed(x) == x;
    assert Mul(Power(root(2), 0), x1) == x1;
    assert Stages(x, 1, root) == Stage(x, 2, root(2));
  }

  /** The loop `for (int i = 0; i < n; i += s)` of one stage, each block's
      butterflies run in place. */
  method SerialStage(a: array<Complex>, s: nat, wn: Complex)
    requires StageShape(a.Length, s)
    modifies a
    ensures a[..] == Stage(old(a[..]), s, wn)
  {
    ghost var x := a[..];
    var n := a.Length;
    var i := 0;
    ghost var c := 0;
    while i < n
      invariant i == c * s && i <= n && i % s == 0
      invariant InRange(Starts(0, s, c), s, n)
      invariant a[..] == RunBlocks(x, Starts(0, s, c), s, wn)
    {
      BlockFits(i, s, n);
      ButterflyBlock(a, i, s, wn);
      ghost var next := Starts(0, s, c + 1);
      assert next[..c] == Starts(0, s, c);
      assert next[c] == i;
      AlignedStep(i, s);
      i := i + s;
      c := c + 1;
    }
    DivModUnique(n, s, c, 0);
    StageBySerialBlocks(x, s, wn);
  }

  /** The stage loop `for (int s = 2; s <= n; s *= 2)` over a signal of
      length n = 2^b, the stage with block length s rotating by root(s). */
  method SerialStages(a: array<Complex>, root: nat -> Complex, ghost b: nat)
    requires a.Length == Pow2(b)
    modifies a
    ensures a.Length % Pow2(b) == 0
    ensures a[..] == Stages(old(a[..]), b, root)
  {
    var n := a.Length;
    ghost var y := a[..];
    var s := 2;
    ghost var k := 1;
    Pow2Divides(0, b);
    while s <= n
      invariant 1 <= k <= b + 1 && s == Pow2(k)
      invariant n % Pow2(k - 1) == 0
      invariant a[..] == Stages(y, k - 1, root)
    {
      Pow2Monotone(k, b);
      Pow2Divides(k, b);
      HalfDivides(n, k);
      var wn := root(s);
      SerialStage(a, s, wn);
      s := s * 2;
      k := k + 1;
    }
    Pow2Monotone(k, b);
  }

  /** The largest value of the 32-bit signed `int` that holds the stage
      counter s. */
  const IntMax: int := 0x7fff_ffff

  /** The stage loop leaves with s = 2n = Pow2(b + 1); that value, and so
      the doubling `s *= 2` that produces it, fits the counter exactly when
      n <= 2^29. */
  lemma StageCounterFits(b: nat)
    ensures Pow2(b + 1) <= IntMax <==> b <= 29
  {
    assert Pow2(5) == 32;
    Pow2Add(5, 5);
    Pow2Add(10, 10);
    Pow2Add(20, 10);
    assert Pow2(30) == 0x4000_0000;
    if b <= 29 {
      Pow2Monotone(b + 1, 30);
    } else {
      Pow2Monotone(31, b + 1);
    }
  }

  /** `fft_iterative`: returns at once for n <= 1, otherwise permutes and
      runs the stages s = 2, 4, ..., n with the rotation root(s). */
  method FftIterative(a: array<Complex>, root: nat -> Complex)
    requires ValidLength(a.Length)
    modifies a
    ensures a[..] == IterativeSpec(old(a[..]), root)
  {
    var n := a.Length;
    if n <= 1 {
      return;
    }
    ghost var x := a[..];
    ghost var b := Log2(n);
    Pow2Monotone(1, b);
    BitReversePermute(a);
    SerialStages(a, root, b);
    IterativeSpecUnfold(x, root, b);
  }
}
