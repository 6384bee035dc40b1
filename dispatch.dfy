/** `fft`: the entry point. Signals of at most THRESHOLD = 2^11 cells take
    the serial iterative transform; longer ones take the chunked parallel
    transform on a pool of four threads. */
module Dispatch {
  import opened ComplexArith
  import opened PowerOfTwo
  import opened Iterative
  import opened Parallel
  import opened CooleyTukey
  import opened ChunkingAsWritten

  /** `THRESHOLD = pow(2, 11)`. */
  const Threshold: nat := 2048

  /** `fft` with the corrected chunk count: whichever branch the length
      selects, and whatever order the pool finishes the chunks in, the result
      is the iterative transform, which is also the recursive Cooley-Tukey
      transform of the input. */
  method Fft(a: array<Complex>, root: nat -> Complex, schedule: nat -> seq<nat>)
    requires ValidLength(a.Length) && ChunkSchedule(schedule, a.Length)
    modifies a
    ensures a[..] == IterativeSpec(old(a[..]), root)
    ensures a[..] == CooleyTukeySpec(old(a[..]), root)
  {
    ghost var x := a[..];
    IterativeIsCooleyTukey(x, root);
    if a.Length <= Threshold {
      FftIterative(a, root);
    } else {
      FftParallelChunking(a, root, schedule);
    }
  }

  /** `fft` as written: the long branch runs the chunking with four chunks
      of n / 4 cells at every stage. */
  function FftAsWritten(x: seq<Complex>, root: nat -> Complex): (r: Outcome)
    requires ValidLength(|x|)
    ensures |x| > Threshold ==> r == OutOfRange(|x|)
  {
    if |x| <= Threshold then Done(IterativeSpec(x, root))
    else ChunkedAsWrittenFaults(x, root); ChunkedAsWritten(x, root)
  }

  /** The entry point as written completes exactly on the signals of at most
      2^11 cells; every longer power of two reads one past its end. */
  lemma FftAsWrittenCompletes(x: seq<Complex>, root: nat -> Complex)
    requires ValidLength(|x|)
    ensures FftAsWritten(x, root).Done? <==> |x| <= Threshold
    ensures |x| <= Threshold ==> FftAsWritten(x, root) == Done(CooleyTukeySpec(x, root))
    ensures |x| > Threshold ==> FftAsWritten(x, root) == OutOfRange(|x|)
  {
    if |x| <= Threshold {
      IterativeIsCooleyTukey(x, root);
    }
  }
}
