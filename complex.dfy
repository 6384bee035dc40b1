/** Complex numbers as immutable values.

    The source stores two doubles; here the parts are exact reals, so every
    identity below is exact where the source's arithmetic only rounds to it. */
module ComplexArith {

  datatype Complex = Complex(re: real, im: real)

  /** The default-constructed value `Complex()`, i.e. (0, 0). */
  const Zero: Complex := Complex(0.0, 0.0)

  /** `Complex(1)`: the imaginary part defaults to zero. */
  const One: Complex := Complex(1.0, 0.0)

  /** `operator+`: a fresh value; the operands are values and cannot change. */
  function Add(x: Complex, y: Complex): (r: Complex)
    ensures r.re - y.re == x.re && r.im - y.im == x.im
  {
    Complex(x.re + y.re, x.im + y.im)
  }

  /** `operator-`. */
  function Sub(x: Complex, y: Complex): (r: Complex)
    ensures r.re + y.re == x.re && r.im + y.im == x.im
    ensures x == y ==> r == Zero
  {
    Complex(x.re - y.re, x.im - y.im)
  }

  /** `operator*`, by the formula (ac - bd, ad + bc). */
  function Mul(x: Complex, y: Complex): (r: Complex)
    ensures x == One ==> r == y
    ensures y == One ==> r == x
    ensures x == Zero || y == Zero ==> r == Zero
  {
    Complex(x.re * y.re - x.im * y.im, x.re * y.im + x.im * y.re)
  }

  /** The twiddle after `j` updates `w = w * wn` starting from `w(1)`. */
  function Power(wn: Complex, j: nat): (r: Complex)
    ensures j == 0 ==> r == One
  {
    if j == 0 then One else Mul(Power(wn, j - 1), wn)
  }

  /** Component-wise sum of two equally long signals. */
  function AddSeq(x: seq<Complex>, y: seq<Complex>): (r: seq<Complex>)
    requires |x| == |y|
    ensures |r| == |x|
    ensures forall k :: 0 <= k < |r| ==> r[k] == Add(x[k], y[k])
  {
    seq(|x|, k requires 0 <= k < |x| => Add(x[k], y[k]))
  }

  /** The all-zero signal of length n. */
  function Zeros(n: nat): (r: seq<Complex>)
    ensures |r| == n
    ensures forall k :: 0 <= k < n ==> r[k] == Zero
  {
    seq(n, _ => Zero)
  }

  /** `Complex(0, 0)` is neutral for the sum. */
  lemma AddZero(x: Complex)
    ensures Add(x, Zero) == x && Add(Zero, x) == x
  {
  }

  /** Both operand orders of the butterfly's product agree over exact reals. */
  lemma MulDistributesAdd(x: Complex, y: Complex, z: Complex)
    ensures Mul(Add(x, y), z) == Add(Mul(x, z), Mul(y, z))
    ensures Mul(z, Add(x, y)) == Add(Mul(z, x), Mul(z, y))
  {
  }

  /** Regrouping four summands, as linearity of a sum needs. */
  lemma AddInterchange(a: Complex, b: Complex, c: Complex, d: Complex)
    ensures Add(Add(a, b), Add(c, d)) == Add(Add(a, c), Add(b, d))
  {
  }

  /** The difference of two sums is the sum of the differences. */
  lemma SubInterchange(a: Complex, b: Complex, c: Complex, d: Complex)
    ensures Sub(Add(a, b), Add(c, d)) == Add(Sub(a, c), Sub(b, d))
  {
  }
}
