/** The quadratic reference transform `dft` (fftlib.cpp). The twiddle for
    output k and input m is the parameter tw(k, m); the source computes it
    as exp(-2 pi i k m / N) from cos and sin. */
module Reference {
  import opened ComplexArith

  /** The sum of x[m] * tw(k, m) over m < count, accumulated from `Complex(0, 0)`
      left to right as `sum = sum + a[m] * w`. */
  function DftSum(x: seq<Complex>, tw: (nat, nat) -> Complex, k: nat, count: nat): Complex
    requires count <= |x|
  {
    if count == 0 then Zero else Add(DftSum(x, tw, k, count - 1), Mul(x[count - 1], tw(k, count - 1)))
  }

  /** The transform: output k is the full sum for k. */
  function DftSpec(x: seq<Complex>, tw: (nat, nat) -> Complex): (r: seq<Complex>)
    ensures |r| == |x|
  {
    seq(|x|, k requires 0 <= k < |x| => DftSum(x, tw, k, |x|))
  }

  /** The sum is linear in the signal. */
  lemma {:induction false} DftSumLinear(x: seq<Complex>, y: seq<Complex>, tw: (nat, nat) -> Complex, k: nat, count: nat)
    requires |x| == |y| && count <= |x|
    ensures DftSum(AddSeq(x, y), tw, k, count) == Add(DftSum(x, tw, k, count), DftSum(y, tw, k, count))
  {
    if count > 0 {
      var m := count - 1;
      DftSumLinear(x, y, tw, k, m);
      MulDistributesAdd(x[m], y[m], tw(k, m));
      AddInterchange(DftSum(x, tw, k, m), DftSum(y, tw, k, m), Mul(x[m], tw(k, m)), Mul(y[m], tw(k, m)));
    }
  }

  /** The transform of a sum is the sum of the transforms. */
  lemma DftLinear(x: seq<Complex>, y: seq<Complex>, tw: (nat, nat) -> Complex)
    requires |x| == |y|
    ensures DftSpec(AddSeq(x, y), tw) == AddSeq(DftSpec(x, tw), DftSpec(y, tw))
  {
    forall k | 0 <= k < |x|
      ensures DftSpec(AddSeq(x, y), tw)[k] == AddSeq(DftSpec(x, tw), DftSpec(y, tw))[k]
    {
      DftSumLinear(x, y, tw, k, |x|);
    }
  }

  /** Only the inputs before count take part: a sum over zeros is zero. */
  lemma {:induction false} DftSumZeros(x: seq<Complex>, tw: (nat, nat) -> Complex, k: nat, lo: nat, count: nat)
    requires lo <= count <= |x|
    requires forall m :: lo <= m < |x| ==> x[m] == Zero
    ensures DftSum(x, tw, k, count) == DftSum(x, tw, k, lo)
  {
    if count > lo {
      DftSumZeros(x, tw, k, lo, count - 1);
      AddZero(DftSum(x, tw, k, lo));
    }
  }

  /** An impulse c at index 0 gives c * tw(k, 0) in every output k. */
  lemma DftImpulse(x: seq<Complex>, tw: (nat, nat) -> Complex)
    requires |x| >= 1 && forall m :: 1 <= m < |x| ==> x[m] == Zero
    ensures forall k :: 0 <= k < |x| ==> DftSpec(x, tw)[k] == Mul(x[0], tw(k, 0))
  {
    forall k | 0 <= k < |x|
      ensures DftSpec(x, tw)[k] == Mul(x[0], tw(k, 0))
    {
      DftSumZeros(x, tw, k, 1, |x|);
      AddZero(Mul(x[0], tw(k, 0)));
    }
  }

  /** The transform of the zero signal is zero. */
  lemma DftZeros(n: nat, tw: (nat, nat) -> Complex)
    ensures DftSpec(Zeros(n), tw) == Zeros(n)
  {
    forall k | 0 <= k < n
      ensures DftSpec(Zeros(n), tw)[k] == Zero
    {
      DftSumZeros(Zeros(n), tw, k, 0, n);
    }
  }

  /** `dft`: fills the fresh buffer a_output output by output, then replaces
      the input with it. The sums read the input only. */
  method Dft(a: array<Complex>, tw: (nat, nat) -> Complex)
    modifies a
    ensures a[..] == DftSpec(old(a[..]), tw)
  {
    ghost var x := a[..];
    var n := a.Length;
    var output := new Complex[n](_ => Zero);
    for k := 0 to n
      invariant a[..] == x
      invariant forall q :: 0 <= q < k ==> output[q] == DftSum(x, tw, q, n)
    {
      var sum := Zero;
      for m := 0 to n
        invariant sum == DftSum(x, tw, k, m)
      {
        var w := tw(k, m);
        sum := Add(sum, Mul(a[m], w));
      }
      output[k] := sum;
    }
    forall i | 0 <= i < n {
      a[i] := output[i];
    }
    assert a[..] == DftSpec(x, tw);
  }
}
