/** The correctness check of `benchmark`: a kernel is run once to warm the
    cache and once more while timed, and it is accepted when the two
    results add up to twice the naive sum, all in 32-bit `int` arithmetic.
    The cycle counter, the conversion to microseconds and the printed
    report are not modelled. */
module Harness {
  import opened Int32
  import opened Sums
  import opened Kernels

  /** The kernel passed to `benchmark` through its function pointer. */
  datatype Kernel = Naive | Unrolled | Vectorized | VectorizedUnrolled

  /** `computeSum(n, a)`: calls the kernel the pointer designates. */
  method Compute(kernel: Kernel, n: I32, a: array<I32>) returns (sum: I32)
    requires n <= a.Length
    ensures sum == Wrap(Sum(a[..Count(n)]))
  {
    match kernel
    case Naive =>
      ghost var touched;
      sum, touched := SumNaive(n, a);
    case Unrolled =>
      ghost var touched, mainTouched, mainSum;
      sum, touched, mainTouched, mainSum := SumUnrolled(n, a);
    case Vectorized =>
      ghost var touched, loads, mainTouched, mainSum;
      sum, touched, loads, mainTouched, mainSum := SumVectorized(n, a);
    case VectorizedUnrolled =>
      ghost var touched, loads, mainTouched, mainSum;
      sum, touched, loads, mainTouched, mainSum := SumVectorizedUnrolled(n, a);
  }

  /** The four kernels return the same 32-bit sum on every input, whatever
      n is: the unrolled and vector kernels agree with `sum_naive`. */
  method AllKernelsAgree(n: I32, a: array<I32>)
    returns (naive: I32, unrolled: I32, vectorized: I32, vectorizedUnrolled: I32)
    requires n <= a.Length
    ensures unrolled == naive && vectorized == naive && vectorizedUnrolled == naive
    ensures naive == Wrap(Sum(a[..Count(n)]))
  {
    naive := Compute(Naive, n, a);
    unrolled := Compute(Unrolled, n, a);
    vectorized := Compute(Vectorized, n, a);
    vectorizedUnrolled := Compute(VectorizedUnrolled, n, a);
  }

  /** The test `sum == 2 * sum_naive(n, a)` after `sum += timed`, with the
      addition and the doubling both wrapping modulo 2^32. */
  predicate Passes(warm: I32, timed: I32, naive: I32)
  {
    Wrap(warm + timed) == Wrap(2 * naive)
  }

  /** For a kernel that returns the same r on both calls, the check accepts
      exactly r == naive and the one other value r == naive + 2^31
      (wrapped): doubling modulo 2^32 cannot tell those two apart. */
  lemma DeterministicPassesIff(r: I32, naive: I32)
    ensures Passes(r, r, naive) <==> r == naive || r == Wrap(naive + TwoTo31)
  {
    WrapCongruent(r + r, 2 * naive);
    var d := r - naive;
    assert r + r - 2 * naive == 2 * d;
    if naive < 0 {
      WrapMod(naive + TwoTo31);
    } else {
      WrapMod(naive - TwoTo31);
      assert Wrap(naive + TwoTo31) == Wrap(naive - TwoTo31);
    }
    if (2 * d) % TwoTo32 == 0 {
      // 2 * d lies strictly between -2^33 and 2^33
      var k := (2 * d) / TwoTo32;
      assert 2 * d == k * TwoTo32;
      assert -2 < k < 2;
      assert d == k * TwoTo31;
    }
  }

  /** `benchmark(n, a, computeSum, name)` without the timing and the report:
      the returned flag is the branch taken at the check, on the results of
      the warm-up call, the timed call and `sum_naive`. Every kernel of the
      benchmark passes on every input. */
  method Benchmark(n: I32, a: array<I32>, kernel: Kernel)
    returns (passed: bool, ghost warm: I32, ghost timed: I32, ghost naive: I32)
    requires n <= a.Length
    ensures warm == timed == naive == Wrap(Sum(a[..Count(n)]))
    ensures passed == Passes(warm, timed, naive)
    ensures passed
  {
    // warm up cache
    var sum: I32 := Compute(kernel, n, a);
    warm := sum;
    // measure
    var t: I32 := Compute(kernel, n, a);
    timed := t;
    sum := Wrap(sum + t);
    var expected: I32, touched: seq<int> := SumNaive(n, a);
    naive := expected;
    passed := sum == Wrap(2 * expected);
  }
}
