/** The recursive transform `fft_cooley_tukey` (fftlib.cpp): split into the
    even- and odd-indexed halves, transform each, combine with the rotation
    root(n). With the same rotations it computes what the iterative transform
    computes. */
module CooleyTukey {
  import opened ComplexArith
  import opened PowerOfTwo
  import opened BitReversal
  import opened Butterfly
  import opened Iterative

  /** The even-indexed half x[0], x[2], ... (the source's a0). */
  function Evens(x: seq<Complex>): (r: seq<Complex>)
    ensures |r| == |x| / 2
  {
    seq(|x| / 2, i requires 0 <= i < |x| / 2 => x[2 * i])
  }

  /** The odd-indexed half x[1], x[3], ... (the source's a1). */
  function Odds(x: seq<Complex>): (r: seq<Complex>)
    ensures |r| == |x| / 2
  {
    seq(|x| / 2, i requires 0 <= i < |x| / 2 => x[2 * i + 1])
  }

  /** Splitting loses nothing: every element of an even-length signal is in
      one of the halves, at half its index. */
  lemma EvensOddsInterleave(x: seq<Complex>)
    requires |x| % 2 == 0
    ensures forall k :: 0 <= k < |x| && k % 2 == 0 ==> x[k] == Evens(x)[k / 2]
    ensures forall k :: 0 <= k < |x| && k % 2 == 1 ==> x[k] == Odds(x)[k / 2]
  {
    forall k | 0 <= k < |x|
      ensures x[k] == (if k % 2 == 0 then Evens(x)[k / 2] else Odds(x)[k / 2])
    {
      DivModUnique(k, 2, k / 2, k % 2);
    }
  }

  /** The combine loop's result: butterfly i joins e[i] and the twiddled o[i]
      into cells i and i + |e|. */
  function Combine(e: seq<Complex>, o: seq<Complex>, wn: Complex): (r: seq<Complex>)
    requires |e| == |o|
    ensures |r| == 2 * |e|
  {
    var h := |e|;
    seq(2 * h, k requires 0 <= k < 2 * h =>
      if k < h then Add(e[k], Mul(Power(wn, k), o[k]))
      else Sub(e[k - h], Mul(Power(wn, k - h), o[k - h])))
  }

  /** Butterfly i of the combination: cells i and i + |e|. */
  lemma CombineAt(e: seq<Complex>, o: seq<Complex>, wn: Complex, i: nat)
    requires |e| == |o| && i < |e|
    ensures Combine(e, o, wn)[i] == Add(e[i], Mul(Power(wn, i), o[i]))
    ensures Combine(e, o, wn)[i + |e|] == Sub(e[i], Mul(Power(wn, i), o[i]))
  {
  }

  /** What the recursive transform leaves in x: signals of length 0 and 1
      unchanged, any other the combination of its halves' transforms with
      the rotation root(|x|). */
  function CooleyTukeySpec(x: seq<Complex>, root: nat -> Complex): (r: seq<Complex>)
    requires ValidLength(|x|)
    ensures |r| == |x|
    decreases |x|
  {
    if |x| <= 1 then x
    else Combine(CooleyTukeySpec(Evens(x), root), CooleyTukeySpec(Odds(x), root), root(|x|))
  }

  /** The split loop `for (i = 0; 2 * i < n; i++)` of `fft_cooley_tukey`:
      fresh halves a0 and a1 with a0[i] = a[2i] and a1[i] = a[2i+1]. */
  method SplitHalves(a: array<Complex>) returns (a0: array<Complex>, a1: array<Complex>)
    requires a.Length % 2 == 0
    ensures fresh(a0) && fresh(a1) && a0 != a1
    ensures a0[..] == Evens(a[..]) && a1[..] == Odds(a[..])
  {
    var n := a.Length;
    a0 := new Complex[n / 2](_ => Zero);
    a1 := new Complex[n / 2](_ => Zero);
    var i := 0;
    while 2 * i < n
      invariant 0 <= i <= n / 2
      invariant forall j :: 0 <= j < i ==> a0[j] == a[2 * j] && a1[j] == a[2 * j + 1]
    {
      a0[i] := a[2 * i];
      a1[i] := a[2 * i + 1];
      i := i + 1;
    }
  }

  /** The combine loop's buffer after its first i passes: cells below i and
      from |c|/2 to |c|/2 + i taken from the combination c, the rest still
      as in x. */
  ghost function CombinedUpTo(x: seq<Complex>, c: seq<Complex>, i: nat): (r: seq<Complex>)
    requires |x| == |c| && 2 * i <= |c|
    ensures |r| == |c|
  {
    seq(|c|, k requires 0 <= k < |c| => if k < i || |c| / 2 <= k < |c| / 2 + i then c[k] else x[k])
  }

  /** Pass i writes cells i and |c|/2 + i. */
  lemma CombinedStep(x: seq<Complex>, c: seq<Complex>, i: nat, h: nat)
    requires |x| == |c| && |c| == 2 * h && i < h
    ensures CombinedUpTo(x, c, i)[i := c[i]][i + h := c[i + h]] == CombinedUpTo(x, c, i + 1)
  {
  }

  /** After |c|/2 passes every cell holds the combination. */
  lemma CombinedAll(x: seq<Complex>, c: seq<Complex>)
    requires |x| == |c| && |c| % 2 == 0
    ensures CombinedUpTo(x, c, |c| / 2) == c
  {
  }

  /** Pass i of the combine loop of `fft_cooley_tukey`: butterfly i writes
      a0[i] + w * a1[i] to cell i and a0[i] - w * a1[i] to cell i + n/2. */
  method CombinePass(a: array<Complex>, a0: array<Complex>, a1: array<Complex>, w: Complex, i: nat)
    requires a0 != a && a1 != a
    requires a.Length == 2 * a0.Length && a0.Length == a1.Length && i < a0.Length
    modifies a
    ensures a[..] == old(a[..])[i := Add(a0[i], Mul(w, a1[i]))][i + a0.Length := Sub(a0[i], Mul(w, a1[i]))]
  {
    var n := a.Length;
    a[i] := Add(a0[i], Mul(w, a1[i]));
    a[i + n / 2] := Sub(a0[i], Mul(w, a1[i]));
  }

  /** The combine loop of `fft_cooley_tukey`: pass i runs butterfly i with
      the twiddle w = wn^i. The twiddle advances under the guard
      `i + n/2 < n`, which holds on every pass: the invariant on w needs it. */
  method CombineHalves(a: array<Complex>, a0: array<Complex>, a1: array<Complex>, wn: Complex)
    requires a0 != a && a1 != a
    requires a.Length == 2 * a0.Length && a0.Length == a1.Length
    modifies a
    ensures a[..] == Combine(a0[..], a1[..], wn)
  {
    var n := a.Length;
    ghost var x, c := a[..], Combine(a0[..], a1[..], wn);
    var w := One;
    for i := 0 to n / 2
      invariant w == Power(wn, i)
      invariant a[..] == CombinedUpTo(x, c, i)
    {
      CombineAt(a0[..], a1[..], wn, i);
      CombinedStep(x, c, i, a0.Length);
      CombinePass(a, a0, a1, w, i);
      if i + n / 2 < n {
        w := Mul(w, wn);
      }
    }
    CombinedAll(x, c);
  }

  /** `fft_cooley_tukey`: returns at once for n <= 1; otherwise splits into
      fresh halves, transforms each recursively and combines them with the
      rotation root(n), overwriting every cell of a. */
  method FftCooleyTukey(a: array<Complex>, root: nat -> Complex)
    requires ValidLength(a.Length)
    modifies a
    ensures a[..] == CooleyTukeySpec(old(a[..]), root)
    decreases a.Length
  {
    var n := a.Length;
    if n <= 1 {
      return;
    }
    ghost var x := a[..];
    assert n % 2 == 0 && IsPow2(n / 2);
    var a0, a1 := SplitHalves(a);
    ghost var e, o := a0[..], a1[..];
    assert e == Evens(x) && o == Odds(x);
    FftCooleyTukey(a0, root);
    assert a1[..] == o;
    FftCooleyTukey(a1, root);
    assert a0[..] == CooleyTukeySpec(e, root);
    CombineHalves(a, a0, a1, root(n));
  }

  /** A one-element signal is its own transform. */
  lemma CooleyTukeySingle(c: Complex, root: nat -> Complex)
    ensures CooleyTukeySpec([c], root) == [c]
  {
  }

  /** The 2^k elements x[off], x[off + 2^m], x[off + 2 * 2^m], ...: the
      subsignal that m levels of even/odd splitting reach. */
  function Decimated(x: seq<Complex>, off: nat, m: nat, k: nat): (r: seq<Complex>)
    requires off < Pow2(m) && Pow2(m + k) <= |x|
    ensures |r| == Pow2(k)
  {
    seq(Pow2(k), j requires 0 <= j < Pow2(k) => DecimatedIndex(off, m, k, j); x[off + j * Pow2(m)])
  }

  /** The elements of a decimation lie below 2^(m+k). */
  lemma DecimatedIndex(off: nat, m: nat, k: nat, j: nat)
    requires off < Pow2(m) && j < Pow2(k)
    ensures off + j * Pow2(m) < Pow2(m + k)
  {
    Pow2Add(m, k);
    var p := Pow2(m);
    assert (j + 1) * p == j * p + p;
    if j + 1 < Pow2(k) {
      MultipleStrict(j + 1, Pow2(k), p);
    }
  }

  /** Index arithmetic of one splitting level: element 2j and 2j+1 at
      stride p are element j at stride 2p, from offsets 0 and p. */
  lemma DoubleStride(j: int, p: int)
    ensures (2 * j) * p == j * (2 * p) && (2 * j + 1) * p == p + j * (2 * p)
  {
  }

  /** One more level of splitting: the halves of a decimation are the
      decimations with twice the stride, at offsets off and off + 2^m. */
  lemma DecimatedHalves(x: seq<Complex>, off: nat, m: nat, k: nat)
    requires k >= 1 && off < Pow2(m) && Pow2(m + k) <= |x|
    ensures off + Pow2(m) < Pow2(m + 1) && Pow2(m + 1 + (k - 1)) <= |x|
    ensures Evens(Decimated(x, off, m, k)) == Decimated(x, off, m + 1, k - 1)
    ensures Odds(Decimated(x, off, m, k)) == Decimated(x, off + Pow2(m), m + 1, k - 1)
  {
    var d, p, h := Decimated(x, off, m, k), Pow2(m), Pow2(k - 1);
    assert Pow2(m + 1) == 2 * p && Pow2(k) == 2 * h;
    assert m + 1 + (k - 1) == m + k;
    var ev, od := Evens(d), Odds(d);
    var e2, o2 := Decimated(x, off, m + 1, k - 1), Decimated(x, off + p, m + 1, k - 1);
    forall j | 0 <= j < h
      ensures ev[j] == e2[j] && od[j] == o2[j]
    {
      DoubleStride(j, p);
      assert ev[j] == d[2 * j] && od[j] == d[2 * j + 1];
    }
  }

  /** Cell lo + j of the stage with block length s = 2h, for the block
      starting at lo: butterfly j (or j - h) of that block read off directly. */
  lemma StageCellAt(z: seq<Complex>, s: nat, h: nat, wn: Complex, lo: nat, j: nat)
    requires StageShape(|z|, s) && s == 2 * h && lo % s == 0 && j < s && lo + s <= |z|
    ensures Stage(z, s, wn)[lo + j]
         == if j < h then Add(z[lo + j], Mul(Power(wn, j), z[lo + j + h]))
            else Sub(z[lo + j - h], Mul(Power(wn, j - h), z[lo + j]))
  {
    BlockOf(lo + j, s, lo);
  }

  /** The stage with block length s = 2h turns the block at lo into the
      combination of its two halves. */
  lemma StageBlockCombine(z: seq<Complex>, s: nat, h: nat, wn: Complex, lo: nat)
    requires StageShape(|z|, s) && s == 2 * h && lo % s == 0 && lo + s <= |z|
    ensures Stage(z, s, wn)[lo .. lo + s] == Combine(z[lo .. lo + h], z[lo + h .. lo + s], wn)
  {
    var c := Combine(z[lo .. lo + h], z[lo + h .. lo + s], wn);
    forall j | 0 <= j < s
      ensures Stage(z, s, wn)[lo + j] == c[j]
    {
      StageCombineCell(z, s, h, wn, lo, j);
    }
  }

  /** Cell lo + j of the stage is cell j of the combination of the block's
      halves. */
  lemma StageCombineCell(z: seq<Complex>, s: nat, h: nat, wn: Complex, lo: nat, j: nat)
    requires StageShape(|z|, s) && s == 2 * h && lo % s == 0 && lo + s <= |z| && j < s
    ensures Stage(z, s, wn)[lo + j] == Combine(z[lo .. lo + h], z[lo + h .. lo + s], wn)[j]
  {
    StageCellAt(z, s, h, wn, lo, j);
    if j < h {
      assert z[lo .. lo + h][j] == z[lo + j] && z[lo + h .. lo + s][j] == z[lo + j + h];
    } else {
      assert z[lo .. lo + h][j - h] == z[lo + j - h] && z[lo + h .. lo + s][j - h] == z[lo + j];
    }
  }

  /** The recursive transform of a decimation of length 2^k, k >= 1,
      combines the transforms of the two decimations with twice the stride
      (m1 = m + 1 halvings, k1 = k - 1 remaining levels, offsets r and
      r1 = r + 2^m). */
  lemma CooleyTukeyDecimated(x: seq<Complex>, root: nat -> Complex, r: nat, r1: nat, m: nat, k: nat, m1: nat, k1: nat)
    requires k >= 1 && k1 == k - 1 && m1 == m + 1 && r < Pow2(m) && r1 == r + Pow2(m) && Pow2(m + k) <= |x|
    ensures IsPow2(Pow2(k)) && IsPow2(Pow2(k1))
    ensures r < Pow2(m1) && r1 < Pow2(m1) && Pow2(m1 + k1) <= |x|
    ensures CooleyTukeySpec(Decimated(x, r, m, k), root)
         == Combine(CooleyTukeySpec(Decimated(x, r, m1, k1), root),
                    CooleyTukeySpec(Decimated(x, r1, m1, k1), root), root(Pow2(k)))
  {
    Pow2IsPow2(k);
    Pow2IsPow2(k1);
    DecimatedHalves(x, r, m, k);
  }

  /** Block q of length 2^k, starting at lo = q * 2^k, lies inside a signal
      of length 2^b when q < 2^(b - k). */
  lemma BlockFitsHolds(b: nat, k: nat, q: nat, lo: nat)
    requires k <= b && q < Pow2(b - k) && lo == q * Pow2(k)
    ensures IsPow2(Pow2(k)) && Pow2(b) % Pow2(k) == 0 && Pow2(b - k + k) <= Pow2(b)
    ensures lo % Pow2(k) == 0 && lo + Pow2(k) <= Pow2(b)
  {
    Pow2IsPow2(k);
    Pow2Divides(k, b);
    assert b - k + k == b;
    MultipleBelow(q, Pow2(k), Pow2(b));
  }

  /** Blocks q0 = 2q and q1 = 2q + 1 of length h start where block q of
      length s = 2h starts and h later. */
  lemma BlockHalves(q: int, q0: int, q1: int, h: int, s: int)
    requires q >= 0 && h >= 0 && q0 == 2 * q && q1 == 2 * q + 1 && s == 2 * h
    ensures q0 * h == q * s && q1 * h == q * s + h && 0 <= q * s
  {
  }

  /** Bit reversal over m + 1 bits sends blocks 2q and 2q + 1 to the offset
      of block q over m bits and that offset plus 2^m. */
  lemma RevHalves(q: nat, q0: nat, q1: nat, m: nat, m1: nat)
    requires q0 == 2 * q && q1 == 2 * q + 1 && m1 == m + 1
    ensures Rev(q0, m1) == Rev(q, m) && Rev(q1, m1) == Rev(q, m) + Pow2(m)
  {
    assert q0 % 2 == 0 && q0 / 2 == q && q1 % 2 == 1 && q1 / 2 == q;
  }

  /** What block q of length 2^k holds after k stages over the bit-reversed
      order of x, |x| = 2^b: x[Rev(q, b)] before any stage, then the
      combination of blocks 2q and 2q + 1 with the rotation root(2^k). */
  function BlockTransform(x: seq<Complex>, root: nat -> Complex, b: nat, k: nat, q: nat): (r: seq<Complex>)
    requires |x| == Pow2(b)
    ensures |r| == Pow2(k)
    decreases k
  {
    if k == 0 then [x[Rev(q, b)]]
    else
      Combine(BlockTransform(x, root, b, k - 1, 2 * q), BlockTransform(x, root, b, k - 1, 2 * q + 1), root(Pow2(k)))
  }

  /** One level of BlockTransform, for k1 = k - 1, q0 = 2q, q1 = 2q + 1. */
  lemma BlockTransformUnfold(x: seq<Complex>, root: nat -> Complex, b: nat, k: nat, k1: nat, q: nat, q0: nat, q1: nat)
    requires |x| == Pow2(b) && k >= 1 && k1 == k - 1 && q0 == 2 * q && q1 == 2 * q + 1
    ensures BlockTransform(x, root, b, k, q)
         == Combine(BlockTransform(x, root, b, k1, q0), BlockTransform(x, root, b, k1, q1), root(Pow2(k)))
  {
  }

  /** The stage with block length s = 2h turns the block at lo, whose halves
      hold t0 and t1, into their combination. */
  lemma StageStep(zk: seq<Complex>, z: seq<Complex>, s: nat, h: nat, wn: Complex, lo: nat, lo1: nat,
                  t0: seq<Complex>, t1: seq<Complex>)
    requires StageShape(|z|, s) && s == 2 * h && lo % s == 0 && lo + s <= |z| && lo1 == lo + h
    requires zk == Stage(z, s, wn) && z[lo .. lo + h] == t0 && z[lo1 .. lo1 + h] == t1
    ensures |t0| == |t1| && zk[lo .. lo + s] == Combine(t0, t1, wn)
  {
    StageBlockCombine(z, s, h, wn, lo);
  }

  /** Before any stage, block q of length 1 of y holds x[Rev(q, b)]. */
  lemma StagesBlocksBase(x: seq<Complex>, y: seq<Complex>, root: nat -> Complex, b: nat, q: nat)
    requires |x| == Pow2(b) && |y| == |x| && q < Pow2(b)
    requires forall p :: 0 <= p < |y| ==> y[p] == x[Rev(p, b)]
    ensures Pow2(0) == 1 && |y| % Pow2(0) == 0
    ensures Stages(y, 0, root)[q .. q + 1] == BlockTransform(x, root, b, 0, q)
  {
  }

  /** The first k stages are the first k1 = k - 1 stages followed by the
      stage with block length 2^k. */
  lemma StagesUnfold(y: seq<Complex>, root: nat -> Complex, k: nat, k1: nat)
    requires k >= 1 && k1 == k - 1 && |y| % Pow2(k) == 0
    ensures |y| % Pow2(k1) == 0 && StageShape(|y|, Pow2(k))
    ensures Stages(y, k, root) == Stage(Stages(y, k1, root), Pow2(k), root(Pow2(k)))
  {
    HalfDivides(|y|, k);
  }

  /** The stage with block length 2^k makes block q the combination of
      blocks q0 = 2q and q1 = 2q + 1 (starting at lo and lo1) of the
      previous stages. */
  lemma StagesBlocksStep(x: seq<Complex>, y: seq<Complex>, root: nat -> Complex, b: nat, k: nat, k1: nat,
                         q: nat, q0: nat, q1: nat, lo: nat, lo1: nat)
    requires |x| == Pow2(b) && |y| == |x| && 1 <= k <= b && q < Pow2(b - k) && lo == q * Pow2(k)
    requires k1 == k - 1 && q0 == 2 * q && q1 == 2 * q + 1 && lo1 == lo + Pow2(k1)
    requires |y| % Pow2(k) == 0 && lo % Pow2(k) == 0 && lo + Pow2(k) <= |y|
    requires Pow2(k) == 2 * Pow2(k1) && |y| % Pow2(k1) == 0
    requires Stages(y, k1, root)[lo .. lo + Pow2(k1)] == BlockTransform(x, root, b, k1, q0)
    requires Stages(y, k1, root)[lo1 .. lo1 + Pow2(k1)] == BlockTransform(x, root, b, k1, q1)
    ensures Stages(y, k, root)[lo .. lo + Pow2(k)] == BlockTransform(x, root, b, k, q)
  {
    StagesUnfold(y, root, k, k1);
    StageStep(Stages(y, k, root), Stages(y, k1, root), Pow2(k), Pow2(k1), root(Pow2(k)), lo, lo1,
              BlockTransform(x, root, b, k1, q0), BlockTransform(x, root, b, k1, q1));
    BlockTransformUnfold(x, root, b, k, k1, q, q0, q1);
  }

  /** After k stages over y, the bit-reversed order of x, block q holds
      BlockTransform(x, root, b, k, q). */
  lemma {:induction false} StagesBlocks(x: seq<Complex>, y: seq<Complex>, root: nat -> Complex, b: nat, k: nat,
                                         q: nat, lo: nat)
    requires |x| == Pow2(b) && |y| == |x| && k <= b && q < Pow2(b - k) && lo == q * Pow2(k)
    requires forall p :: 0 <= p < |y| ==> y[p] == x[Rev(p, b)]
    ensures |y| % Pow2(k) == 0 && lo % Pow2(k) == 0 && lo + Pow2(k) <= |y|
    ensures Stages(y, k, root)[lo .. lo + Pow2(k)] == BlockTransform(x, root, b, k, q)
  {
    BlockFitsHolds(b, k, q, lo);
    if k == 0 {
      StagesBlocksBase(x, y, root, b, q);
    } else {
      var k1, q0, q1 := k - 1, 2 * q, 2 * q + 1;
      var lo1 := lo + Pow2(k1);
      assert Pow2(b - k1) == 2 * Pow2(b - k) && Pow2(k) == 2 * Pow2(k1);
      BlockHalves(q, q0, q1, Pow2(k1), Pow2(k));
      StagesBlocks(x, y, root, b, k1, q0, lo);
      StagesBlocks(x, y, root, b, k1, q1, lo1);
      HalfDivides(|y|, k);
      StagesBlocksStep(x, y, root, b, k, k1, q, q0, q1, lo, lo1);
    }
  }

  /** A decimation with no levels left is the one element at its offset. */
  lemma DecimatedSingle(x: seq<Complex>, off: nat, m: nat)
    requires off < Pow2(m) && Pow2(m + 0) <= |x|
    ensures Decimated(x, off, m, 0) == [x[off]]
  {
    assert Pow2(0) == 1;
  }

  /** Block q after k levels, with m = b - k levels of splitting above it,
      is the recursive transform of the decimation of x at offset
      r = Rev(q, m) with stride 2^m. */
  lemma {:induction false} BlockTransformIsCooleyTukey(x: seq<Complex>, root: nat -> Complex, b: nat, k: nat, q: nat,
                                                       m: nat, r: nat)
    requires |x| == Pow2(b) && m + k == b && q < Pow2(m) && r == Rev(q, m)
    ensures Pow2(m + k) <= |x| && IsPow2(Pow2(k))
    ensures BlockTransform(x, root, b, k, q) == CooleyTukeySpec(Decimated(x, r, m, k), root)
  {
    Pow2IsPow2(k);
    if k == 0 {
      DecimatedSingle(x, r, m);
    } else {
      var k1, q0, q1, m1 := k - 1, 2 * q, 2 * q + 1, m + 1;
      var r1 := r + Pow2(m);
      assert Pow2(m1) == 2 * Pow2(m);
      RevHalves(q, q0, q1, m, m1);
      BlockTransformIsCooleyTukey(x, root, b, k1, q0, m1, r);
      BlockTransformIsCooleyTukey(x, root, b, k1, q1, m1, r1);
      BlockTransformUnfold(x, root, b, k, k1, q, q0, q1);
      CooleyTukeyDecimated(x, root, r, r1, m, k, m1, k1);
    }
  }

  /** The decimation with offset 0 and stride 1 is the signal itself. */
  lemma DecimatedWhole(x: seq<Complex>, b: nat)
    requires |x| == Pow2(b)
    ensures Decimated(x, 0, 0, b) == x
  {
  }

  /** With the same rotations, the iterative (bit reversal, then stages) and
      the recursive (split, recurse, combine) transforms agree on every
      signal they accept. */
  lemma IterativeIsCooleyTukey(x: seq<Complex>, root: nat -> Complex)
    requires ValidLength(|x|)
    ensures IterativeSpec(x, root) == CooleyTukeySpec(x, root)
  {
    if |x| >= 2 {
      var b := Log2(|x|);
      var y := BitReversed(x);
      Pow2IsPow2(b);
      StagesBlocks(x, y, root, b, b, 0, 0);
      BlockTransformIsCooleyTukey(x, root, b, b, 0, 0, 0);
      DecimatedWhole(x, b);
      var z := Stages(y, b, root);
      assert z[0 .. |x|] == z;
    }
  }

  /** The halves of a sum of signals are the sums of their halves. */
  lemma HalvesOfSum(x: seq<Complex>, y: seq<Complex>)
    requires |x| == |y|
    ensures Evens(AddSeq(x, y)) == AddSeq(Evens(x), Evens(y))
    ensures Odds(AddSeq(x, y)) == AddSeq(Odds(x), Odds(y))
  {
    assert Evens(AddSeq(x, y)) == AddSeq(Evens(x), Evens(y));
    assert Odds(AddSeq(x, y)) == AddSeq(Odds(x), Odds(y));
  }

  /** Cell k of the combination of sums is the sum of the cells k. */
  lemma CombineLinearAt(e1: seq<Complex>, o1: seq<Complex>, e2: seq<Complex>, o2: seq<Complex>, wn: Complex, k: nat)
    requires |e1| == |o1| == |e2| == |o2| && k < 2 * |e1|
    ensures Combine(AddSeq(e1, e2), AddSeq(o1, o2), wn)[k] == Add(Combine(e1, o1, wn)[k], Combine(e2, o2, wn)[k])
  {
    var h := |e1|;
    var e, o := AddSeq(e1, e2), AddSeq(o1, o2);
    var i := if k < h then k else k - h;
    var p := Power(wn, i);
    var m1, m2 := Mul(p, o1[i]), Mul(p, o2[i]);
    assert e[i] == Add(e1[i], e2[i]) && o[i] == Add(o1[i], o2[i]);
    MulDistributesAdd(o1[i], o2[i], p);
    assert Mul(p, o[i]) == Add(m1, m2);
    if k < h {
      assert Combine(e, o, wn)[k] == Add(e[i], Mul(p, o[i]));
      assert Combine(e1, o1, wn)[k] == Add(e1[i], m1);
      assert Combine(e2, o2, wn)[k] == Add(e2[i], m2);
      AddInterchange(e1[i], e2[i], m1, m2);
    } else {
      CombineHigh(e, o, wn, h, i, k);
      CombineHigh(e1, o1, wn, h, i, k);
      CombineHigh(e2, o2, wn, h, i, k);
      SubInterchange(e1[i], e2[i], m1, m2);
    }
  }

  /** Cell k = i + h of a combination of halves of length h. */
  lemma CombineHigh(e: seq<Complex>, o: seq<Complex>, wn: Complex, h: nat, i: nat, k: nat)
    requires |e| == |o| == h && k == i + h && i < h
    ensures Combine(e, o, wn)[k] == Sub(e[i], Mul(Power(wn, i), o[i]))
  {
    CombineAt(e, o, wn, i);
  }

  /** Combining is linear: combining sums of halves sums the combinations. */
  lemma CombineLinear(e1: seq<Complex>, o1: seq<Complex>, e2: seq<Complex>, o2: seq<Complex>, wn: Complex)
    requires |e1| == |o1| == |e2| == |o2|
    ensures Combine(AddSeq(e1, e2), AddSeq(o1, o2), wn) == AddSeq(Combine(e1, o1, wn), Combine(e2, o2, wn))
  {
    forall k | 0 <= k < 2 * |e1|
      ensures Combine(AddSeq(e1, e2), AddSeq(o1, o2), wn)[k] == Add(Combine(e1, o1, wn)[k], Combine(e2, o2, wn)[k])
    {
      CombineLinearAt(e1, o1, e2, o2, wn, k);
    }
  }

  /** The recursive transform is linear: the transform of a sum of signals
      is the sum of their transforms. */
  lemma {:induction false} CooleyTukeyLinear(x: seq<Complex>, y: seq<Complex>, root: nat -> Complex)
    requires |x| == |y| && ValidLength(|x|)
    ensures ValidLength(|AddSeq(x, y)|)
    ensures CooleyTukeySpec(AddSeq(x, y), root) == AddSeq(CooleyTukeySpec(x, root), CooleyTukeySpec(y, root))
    decreases |x|
  {
    if |x| >= 2 {
      HalvesOfSum(x, y);
      CooleyTukeyLinear(Evens(x), Evens(y), root);
      CooleyTukeyLinear(Odds(x), Odds(y), root);
      CombineLinear(CooleyTukeySpec(Evens(x), root), CooleyTukeySpec(Odds(x), root),
                    CooleyTukeySpec(Evens(y), root), CooleyTukeySpec(Odds(y), root), root(|x|));
    }
  }

  /** Combining two zero halves gives zeros. */
  lemma CombineZeros(h: nat, wn: Complex)
    ensures Combine(Zeros(h), Zeros(h), wn) == Zeros(2 * h)
  {
    forall k | 0 <= k < 2 * h
      ensures Combine(Zeros(h), Zeros(h), wn)[k] == Zero
    {
      CombineZeroAt(h, wn, k);
    }
  }

  /** Cell k of the combination of two zero halves. */
  lemma CombineZeroAt(h: nat, wn: Complex, k: nat)
    requires k < 2 * h
    ensures Combine(Zeros(h), Zeros(h), wn)[k] == Zero
  {
    var z := Zeros(h);
    var i := if k < h then k else k - h;
    var t := Mul(Power(wn, i), z[i]);
    assert t == Zero;
    if k < h {
      AddZero(Zero);
      assert Combine(z, z, wn)[k] == Add(Zero, t);
    } else {
      CombineHigh(z, z, wn, h, i, k);
    }
  }

  /** The recursive transform of the zero signal is zero. */
  lemma {:induction false} CooleyTukeyZeros(n: nat, root: nat -> Complex)
    requires ValidLength(n)
    ensures CooleyTukeySpec(Zeros(n), root) == Zeros(n)
    decreases n
  {
    if n >= 2 {
      var h := n / 2;
      assert Evens(Zeros(n)) == Zeros(h) && Odds(Zeros(n)) == Zeros(h);
      CooleyTukeyZeros(h, root);
      CombineZeros(h, root(n));
    }
  }

  /** So is the iterative one, and with it every in-place transform whose
      result is `IterativeSpec`: `fft_iterative`, both parallel schedules and
      `fft`. */
  lemma IterativeLinear(x: seq<Complex>, y: seq<Complex>, root: nat -> Complex)
    requires |x| == |y| && ValidLength(|x|)
    ensures ValidLength(|AddSeq(x, y)|)
    ensures IterativeSpec(AddSeq(x, y), root) == AddSeq(IterativeSpec(x, root), IterativeSpec(y, root))
  {
    CooleyTukeyLinear(x, y, root);
    IterativeIsCooleyTukey(x, root);
    IterativeIsCooleyTukey(y, root);
    IterativeIsCooleyTukey(AddSeq(x, y), root);
  }

  /** The iterative transform of the zero signal is zero. */
  lemma IterativeZeros(n: nat, root: nat -> Complex)
    requires ValidLength(n)
    ensures IterativeSpec(Zeros(n), root) == Zeros(n)
  {
    CooleyTukeyZeros(n, root);
    IterativeIsCooleyTukey(Zeros(n), root);
  }
}
