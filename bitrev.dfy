/** The bit-reversal permutation that the iterative and both parallel
    transforms run before their butterfly stages (fftlib.cpp, repeated in
    fft_iterative, fft_parallel_butterfly and fft_parallel_chunking). */
module BitReversal {
  import opened ComplexArith
  import opened PowerOfTwo

  /** The m-bit reversal of i: bit t of i becomes bit m-1-t (bits of i at or
      above m do not take part). */
  function Rev(i: nat, m: nat): (r: nat)
    ensures r < Pow2(m)
  {
    if m == 0 then 0
    else if i % 2 == 0 then Rev(i / 2, m - 1)
    else Pow2(m - 1) + Rev(i / 2, m - 1)
  }

  /** The inner `while (m >= 2 && j >= m) { j -= m; m /= 2; } j += m;` of the
      scan, as a function of the counter j and the starting m. */
  function CarryStep(j: nat, m: nat): (r: nat)
    decreases m
  {
    if m >= 2 && j >= m then CarryStep(j - m, m / 2) else j + m
  }

  /** Started from a counter below 2m, with m a power of two, the carry loop
      leaves a counter between 1 and 2m: the reversed counter never passes n. */
  lemma {:induction false} CarryStepBound(j: nat, m: nat)
    requires IsPow2(m) && j < 2 * m
    ensures 1 <= CarryStep(j, m) <= 2 * m
    decreases m
  {
    if m >= 2 && j >= m {
      CarryStepBound(j - m, m / 2);
    }
  }

  /** Splitting off the low bit, then the rest by Q = 2^(m-2) and P = 2Q. */
  lemma HalvingDivMod(i: nat, q: nat)
    requires q >= 1
    ensures (i % (2 * q)) % 2 == i % 2
    ensures (i % (2 * q)) / 2 == (i / 2) % q
    ensures (i / 2) / q == i / (2 * q)
  {
    var e, h := i % 2, i / 2;
    var c, d := h / q, h % q;
    assert i == (2 * q) * c + (2 * d + e);
    DivModUnique(i, 2 * q, c, 2 * d + e);
    DivModUnique(2 * d + e, 2, d, e);
  }

  /** Reading the reversal from the other end: the top bit of i becomes the
      low bit of the result. */
  lemma {:induction false} RevTopBit(i: nat, m: nat)
    requires m >= 1 && i < Pow2(m)
    ensures Rev(i, m) == 2 * Rev(i % Pow2(m - 1), m - 1) + i / Pow2(m - 1)
  {
    if m >= 2 {
      var q := Pow2(m - 2);
      var p := Pow2(m - 1);
      var h := i / 2;
      assert p == 2 * q;
      RevTopBit(h, m - 1);
      HalvingDivMod(i, q);
      var lo := i % p;
      assert lo % 2 == i % 2 && lo / 2 == h % q && h / q == i / p;
      if i % 2 == 0 {
        assert Rev(lo, m - 1) == Rev(h % q, m - 2);
        assert Rev(i, m) == Rev(h, m - 1);
      } else {
        assert Rev(lo, m - 1) == q + Rev(h % q, m - 2);
        assert Rev(i, m) == p + Rev(h, m - 1);
      }
    }
  }

  /** Bit reversal is an involution on [0, 2^m). */
  lemma {:induction false} RevInvolution(i: nat, m: nat)
    requires i < Pow2(m)
    ensures Rev(Rev(i, m), m) == i
  {
    if m >= 1 {
      var p := Pow2(m - 1);
      var low := Rev(i / 2, m - 1);
      var r := Rev(i, m);
      assert r == (i % 2) * p + low;
      DivModUnique(r, p, i % 2, low);
      RevTopBit(r, m);
      RevInvolution(i / 2, m - 1);
    }
  }

  /** The carry loop turns the reversal of i into the reversal of i + 1, for
      every i whose successor is still an index. */
  lemma {:induction false} RevSucc(i: nat, b: nat)
    requires b >= 1 && i + 1 < Pow2(b)
    ensures CarryStep(Rev(i, b), Pow2(b - 1)) == Rev(i + 1, b)
  {
    var p := Pow2(b - 1);
    var low := Rev(i / 2, b - 1);
    if i % 2 == 0 {
      assert Rev(i, b) == low;
      assert (i + 1) / 2 == i / 2 && (i + 1) % 2 == 1;
      assert Rev(i + 1, b) == p + low;
    } else {
      assert b >= 2;
      assert Rev(i, b) == p + low;
      assert p == 2 * Pow2(b - 2);
      assert CarryStep(p + low, p) == CarryStep(low, Pow2(b - 2));
      assert (i + 1) / 2 == i / 2 + 1 && (i + 1) % 2 == 0;
      assert Rev(i + 1, b) == Rev(i / 2 + 1, b - 1);
      RevSucc(i / 2, b - 1);
    }
  }

  lemma {:induction false} RevZero(m: nat)
    ensures Rev(0, m) == 0
  {
    if m > 0 {
      RevZero(m - 1);
    }
  }

  /** The permuted signal: position k holds the element from index Rev(k). */
  function BitReversed(x: seq<Complex>): (r: seq<Complex>)
    requires IsPow2(|x|)
    ensures |r| == |x|
  {
    seq(|x|, k requires 0 <= k < |x| => x[Rev(k, Log2(|x|))])
  }

  /** Applying the permutation twice gives back the original order. */
  lemma BitReversedInvolution(x: seq<Complex>)
    requires IsPow2(|x|)
    ensures BitReversed(BitReversed(x)) == x
  {
    var b := Log2(|x|);
    forall k | 0 <= k < |x|
      ensures BitReversed(BitReversed(x))[k] == x[k]
    {
      RevInvolution(k, b);
    }
  }

  /** While the scan is at index i, the value at p came from this index:
      a pair (p, Rev(p)) has been exchanged once the smaller of the two is below i. */
  function ScanOrigin(p: nat, i: nat, b: nat): nat
  {
    if p < i || Rev(p, b) < i then Rev(p, b) else p
  }

  /** After the scan has visited the indices below i, every cell holds the
      element from its origin. */
  ghost predicate Origins(cur: seq<Complex>, orig: seq<Complex>, i: nat, b: nat)
  {
    |cur| == |orig| == Pow2(b) && forall p {:trigger cur[p]} :: 0 <= p < |cur| ==> cur[p] == orig[ScanOrigin(p, i, b)]
  }

  /** One visit of the scan at index i: exchange cells i and Rev(i) when
      Rev(i) > i, so that each pair is exchanged once. */
  function ScanVisit(cur: seq<Complex>, i: nat, b: nat): (r: seq<Complex>)
    requires |cur| == Pow2(b) && i < |cur|
    ensures |r| == |cur|
    ensures Rev(i, b) > i ==> r[i] == cur[Rev(i, b)] && r[Rev(i, b)] == cur[i]
    ensures Rev(i, b) <= i ==> r == cur
    ensures forall p :: 0 <= p < |r| && p != i && p != Rev(i, b) ==> r[p] == cur[p]
  {
    var j := Rev(i, b);
    if j > i then cur[i := cur[j]][j := cur[i]] else cur
  }

  lemma ScanVisitPermutes(cur: seq<Complex>, i: nat, b: nat)
    requires |cur| == Pow2(b) && i < |cur|
    ensures multiset(ScanVisit(cur, i, b)) == multiset(cur)
  {
  }

  /** The cells after the scan has visited indices 0 .. i-1 of x. */
  function ScanPrefix(x: seq<Complex>, i: nat, b: nat): (r: seq<Complex>)
    requires |x| == Pow2(b) && i <= |x|
    ensures |r| == |x|
  {
    if i == 0 then x else ScanVisit(ScanPrefix(x, i - 1, b), i - 1, b)
  }

  /** One visit keeps the origin map: afterwards every p holds the element
      from its origin at i + 1. */
  lemma {:induction false} ScanStep(cur: seq<Complex>, orig: seq<Complex>, i: nat, b: nat)
    requires |orig| == Pow2(b) && i < Pow2(b) && Origins(cur, orig, i, b)
    ensures Origins(ScanVisit(cur, i, b), orig, i + 1, b)
  {
    var j := Rev(i, b);
    var next := ScanVisit(cur, i, b);
    RevInvolution(i, b);
    forall p | 0 <= p < |next|
      ensures next[p] == orig[ScanOrigin(p, i + 1, b)]
    {
      RevInvolution(p, b);
      if j > i && p == i {
        assert next[p] == cur[j] == orig[j];
      } else if j > i && p == j {
        assert next[p] == cur[i] == orig[i];
      } else {
        assert next[p] == cur[p];
        assert ScanOrigin(p, i, b) == ScanOrigin(p, i + 1, b);
      }
    }
  }

  lemma {:induction false} ScanPrefixPermutes(x: seq<Complex>, i: nat, b: nat)
    requires |x| == Pow2(b) && i <= |x|
    ensures multiset(ScanPrefix(x, i, b)) == multiset(x)
  {
    if i > 0 {
      var prev := ScanPrefix(x, i - 1, b);
      var next := ScanVisit(prev, i - 1, b);
      assert ScanPrefix(x, i, b) == next;
      ScanPrefixPermutes(x, i - 1, b);
      ScanVisitPermutes(prev, i - 1, b);
      calc {
        multiset(ScanPrefix(x, i, b));
        multiset(next);
        multiset(prev);
        multiset(x);
      }
    }
  }

  lemma {:induction false} ScanPrefixOrigins(x: seq<Complex>, i: nat, b: nat)
    requires |x| == Pow2(b) && i <= |x|
    ensures Origins(ScanPrefix(x, i, b), x, i, b)
  {
    if i == 0 {
      RevZero(b);
      forall p | 0 <= p < |x|
        ensures x[p] == x[ScanOrigin(p, 0, b)]
      {
      }
    } else {
      ScanPrefixOrigins(x, i - 1, b);
      ScanStep(ScanPrefix(x, i - 1, b), x, i - 1, b);
    }
  }

  /** Once every index has been visited, the cells hold the permuted signal. */
  lemma ScanDone(cur: seq<Complex>, orig: seq<Complex>)
    requires IsPow2(|orig|) && Origins(cur, orig, |orig|, Log2(|orig|))
    ensures cur == BitReversed(orig)
  {
  }

  /** The full scan computes the permuted signal, and keeps the multiset of
      values: nothing is lost or duplicated. */
  lemma BitReversedByScan(x: seq<Complex>)
    requires IsPow2(|x|)
    ensures ScanPrefix(x, |x|, Log2(|x|)) == BitReversed(x)
    ensures multiset(BitReversed(x)) == multiset(x)
  {
    var b := Log2(|x|);
    ScanPrefixOrigins(x, |x|, b);
    ScanDone(ScanPrefix(x, |x|, b), x);
    ScanPrefixPermutes(x, |x|, b);
  }

  /** `std::swap` on two cells of the vector. */
  method Swap(a: array<Complex>, i: nat, j: nat)
    requires i < a.Length && j < a.Length
    modifies a
    ensures a[..] == old(a[..])[i := old(a[j])][j := old(a[i])]
    ensures multiset(a[..]) == multiset(old(a[..]))
  {
    a[i], a[j] := a[j], a[i];
  }

  /** One visit of the scan: `if (j > i) std::swap(a[i], a[j])`, with j the
      reversal of i. */
  method Visit(a: array<Complex>, i: nat, j: nat, ghost b: nat)
    requires a.Length == Pow2(b) && i < a.Length && j == Rev(i, b)
    modifies a
    ensures a[..] == ScanVisit(old(a[..]), i, b)
  {
    if j > i {
      Swap(a, i, j);
    }
  }

  /** The carry loop of the scan: subtract the set top bits of the reversed
      counter, halving m, then add the first clear one. With n = 2^b and
      j the reversal of i, it leaves the reversal of i + 1; after the last
      index the value is never used. */
  method NextReversed(j: nat, n: nat, ghost i: nat, ghost b: nat) returns (j': nat)
    requires n == Pow2(b) && i < n && j == Rev(i, b)
    ensures i + 1 < n ==> j' == Rev(i + 1, b)
  {
    var m: nat := n / 2;
    j' := j;
    while m >= 2 && j' >= m
      invariant CarryStep(j', m) == CarryStep(j, n / 2)
      decreases m
    {
      j' := j' - m;
      m := m / 2;
    }
    j' := j' + m;
    if i + 1 < n {
      assert n / 2 == Pow2(b - 1);
      RevSucc(i, b);
    }
  }

  /** The in-place scan with the running reversed counter j. */
  method BitReversePermute(a: array<Complex>)
    requires IsPow2(a.Length)
    modifies a
    ensures a[..] == BitReversed(old(a[..]))
    ensures multiset(a[..]) == multiset(old(a[..]))
  {
    var n := a.Length;
    ghost var b := Log2(n);
    ghost var orig := a[..];
    var i: nat, j: nat := 0, 0;
    RevZero(b);
    while i < n
      invariant i <= n
      invariant i < n ==> j == Rev(i, b)
      invariant a[..] == ScanPrefix(orig, i, b)
    {
      Visit(a, i, j, b);
      j := NextReversed(j, n, i, b);
      i := i + 1;
    }
    BitReversedByScan(orig);
  }
}
