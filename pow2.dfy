/** Powers of two and the block arithmetic of the radix-2 transforms. */
module PowerOfTwo {

  function Pow2(k: nat): (r: nat)
    ensures r >= 1
  {
    if k == 0 then 1 else 2 * Pow2(k - 1)
  }

  /** n is 1, 2, 4, 8, ... */
  predicate IsPow2(n: nat)
  {
    n == 1 || (n >= 2 && n % 2 == 0 && IsPow2(n / 2))
  }

  /** The lengths the radix-2 transforms accept: a power of two, or the empty
      signal, which they return unchanged before looking at it. */
  predicate ValidLength(n: nat)
  {
    n == 0 || IsPow2(n)
  }

  /** The number of bits of an index into a signal of length n. */
  function Log2(n: nat): (b: nat)
    requires IsPow2(n)
    ensures Pow2(b) == n
  {
    if n == 1 then 0 else 1 + Log2(n / 2)
  }

  lemma {:induction false} Pow2IsPow2(k: nat)
    ensures IsPow2(Pow2(k)) && Log2(Pow2(k)) == k
  {
    if k > 0 {
      Pow2IsPow2(k - 1);
    }
  }

  lemma {:induction false} Pow2Monotone(j: nat, k: nat)
    ensures j <= k <==> Pow2(j) <= Pow2(k)
  {
    if j > 0 && k > 0 {
      Pow2Monotone(j - 1, k - 1);
    } else if j > 0 {
      assert Pow2(j) >= 2 by { Pow2Monotone(j - 1, 0); }
    } else if k > 0 {
      Pow2Monotone(0, k - 1);
    }
  }

  lemma {:induction false} Pow2Add(j: nat, k: nat)
    ensures Pow2(j + k) == Pow2(j) * Pow2(k)
  {
    if j > 0 {
      Pow2Add(j - 1, k);
    }
  }

  /** Division with remainder is unique. */
  lemma DivModUnique(m: int, s: int, q: int, r: int)
    requires s > 0 && 0 <= r < s && m == q * s + r
    ensures m / s == q && m % s == r
  {
    var q', r' := m / s, m % s;
    assert (q' - q) * s == r - r';
    if q' > q {
      MulAtLeast(q' - q, s);
    } else if q' < q {
      MulAtLeast(q - q', s);
    }
  }

  lemma MulAtLeast(a: int, s: int)
    requires a >= 1 && s > 0
    ensures a * s >= s
  {
    assert a * s == (a - 1) * s + s;
    assert (a - 1) * s >= 0;
  }

  /** A multiple of s lies in the block [q*s, q*s + s). */
  lemma BlockOf(k: int, s: int, base: int)
    requires s > 0 && base % s == 0 && base <= k < base + s
    ensures k % s == k - base && k - k % s == base
  {
    DivModUnique(base, s, base / s, 0);
    DivModUnique(k, s, base / s, k - base);
  }

  /** An aligned block that starts inside [0, n) ends inside it too. */
  lemma BlockFits(i: int, s: int, n: int)
    requires s > 0 && n % s == 0 && 0 <= i < n && i % s == 0
    ensures i + s <= n
  {
    var q, Q := i / s, n / s;
    assert i == q * s && n == Q * s;
    assert n - i == (Q - q) * s;
    if q < Q {
      MulAtLeast(Q - q, s);
    }
  }

  /** The block of a cell fits in the signal. */
  lemma CellBlockFits(k: int, s: int, n: int)
    requires s > 0 && n % s == 0 && 0 <= k < n
    ensures 0 <= k - k % s <= k && k - k % s + s <= n && (k - k % s) % s == 0
  {
    var q := k / s;
    assert k - k % s == q * s;
    DivModUnique(q * s, s, q, 0);
    BlockFits(q * s, s, n);
  }

  /** The t-th block start t*s of a signal of n / s blocks is aligned and fits. */
  lemma MultipleBelow(t: int, s: int, n: int)
    requires s > 0 && n % s == 0 && 0 <= t < n / s
    ensures (t * s) % s == 0 && 0 <= t * s && t * s + s <= n
  {
    DivModUnique(t * s, s, t, 0);
    assert n == (n / s) * s;
    assert n - t * s == (n / s - t) * s;
    MulAtLeast(n / s - t, s);
  }

  /** Distinct block numbers give distinct block starts, in the same order. */
  lemma MultipleStrict(t: int, u: int, s: int)
    requires s > 0 && t < u
    ensures t * s < u * s
  {
    assert u * s - t * s == (u - t) * s;
    MulAtLeast(u - t, s);
  }

  /** The block of cell k is block number k / s, one of the n / s blocks. */
  lemma CellQuotient(k: int, s: int, n: int)
    requires s > 0 && n % s == 0 && 0 <= k < n
    ensures k - k % s == (k / s) * s && 0 <= k / s < n / s
  {
    var q, Q := k / s, n / s;
    assert n == Q * s && k == q * s + k % s;
    assert (q - Q + 1) * s == q * s - n + s;
    if q >= Q {
      MulAtLeast(q - Q + 1, s);
    }
  }

  /** Adding one block length keeps a start aligned. */
  lemma AlignedStep(i: int, s: int)
    requires s > 0 && i % s == 0
    ensures (i + s) % s == 0
  {
    DivModUnique(i, s, i / s, 0);
    DivModUnique(i + s, s, i / s + 1, 0);
  }

  /** A smaller power of two divides a larger one. */
  lemma {:induction false} Pow2Divides(j: nat, k: nat)
    requires j <= k
    ensures Pow2(k) % Pow2(j) == 0 && Pow2(k) / Pow2(j) == Pow2(k - j)
  {
    Pow2Add(k - j, j);
    assert Pow2(k) == Pow2(k - j) * Pow2(j);
    DivModUnique(Pow2(k), Pow2(j), Pow2(k - j), 0);
  }

  /** n % s == 0 together with s % m == 0 gives n % m == 0. */
  lemma DividesTransitive(n: int, s: int, m: int)
    requires s > 0 && m > 0 && n % s == 0 && s % m == 0
    ensures n % m == 0
  {
    var a, b := n / s, s / m;
    assert n == a * s && s == b * m;
    assert n == (a * b) * m;
    DivModUnique(n, m, a * b, 0);
  }
}
