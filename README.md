# Verified model of the `sum.c` SIMD summation benchmark

`sum.c` times four ways of adding up an array of C `int`s and checks each
against a plain loop:

- `sum_naive` adds `a[0], ..., a[n-1]` left to right;
- `sum_unrolled` adds four elements per iteration over `[0, n/4*4)`, then
  runs a scalar tail over `[n/4*4, n)`;
- `sum_vectorized` keeps a 4-lane SSE2 accumulator over `[0, n - n%4)`,
  stores its lanes to a 4-int buffer, adds them up, then runs a scalar tail;
- `sum_vectorized_unrolled` counts 4-int chunks with an outer index `p`
  that steps by four chunks, with nested bound checks that `break` out,
  and ends with the same reduction and tail;
- `benchmark` runs a kernel twice (warm-up and timed) and accepts it when
  the two results add up to twice the naive sum.

The Dafny model keeps the C shapes: each kernel is a `method` with the
same loops, guards and breaks, on an `array<I32>`. Every addition wraps
modulo 2^32, as the benchmark relies on. `n` is a C `int` and may be
negative, and `/` and `%` truncate toward zero as in C. Each kernel is
proved to return `Wrap(Sum(a[..Count(n)]))`, the 32-bit wrap-around of the
mathematical sum of the elements it may read. `Count(n)` is `n` clamped at
0. Each kernel also returns ghost traces of what it reads. `touched` lists
the element indices in the order they are added. For the vector kernels,
`loads` lists the offsets of the 4-wide loads. The traces show that every
index in `[0, n)` is read exactly once and in increasing order, and that
chunk `k` is loaded once, from offset `4 * k`.

Files:

- `int32.dfy` (module `Int32`): the C `int` type `I32`, two's-complement
  `Wrap`, C's truncating `/` and `%` (`CQuot`, `CRem`), and the
  congruence lemmas that let a running 32-bit sum be regrouped.
- `sums.dfy` (module `Sums`): the specification. `Sum` is the
  left-to-right sum, `LaneSum(s, j)` sums the elements at indices
  congruent to `j` mod 4, and `Indices` and `Offsets` are the expected
  traces. The module proves the partition lemmas.
- `sse2.dfy` (module `Sse2`): the `__m128i` register as four `I32` lanes and
  the intrinsics `_mm_setzero_si128`, `_mm_loadu_si128`, `_mm_add_epi32`,
  `_mm_storeu_si128`.
- `kernels.dfy` (module `Kernels`): the four kernels.
- `harness.dfy` (module `Harness`): the function-pointer dispatch of
  `benchmark` and its pass/fail check.

## Model

| member | source | states |
|---|---|---|
| Int32.Wrap | sum.c:32 | definition, no contract: the C `int` that a mathematical sum lands on under two's-complement wrap-around, the meaning of every `sum +=` (sum.c:32, 44-47, 53, 73, 76, 110, 113, 125) and of each lane of `_mm_add_epi32`; its properties are `Int32.WrapMod`, `Int32.WrapCongruent`, `Int32.WrapAdd` and `Int32.WrapAddBoth` |
| Int32.WrapMod | sum.c:32 | the wrapped value is congruent to the mathematical sum modulo 2^32, and a sum already in the `int` range is unchanged |
| Int32.MultiplesClosed | sum.c:32 | helper for `Int32.WrapCongruent`, an arithmetic fact rather than a model of the line: multiples of 2^32 are closed under + and - |
| Int32.WrapCongruent | sum.c:132 | two integers wrap to the same `int` if and only if they are congruent modulo 2^32 |
| Int32.WrapAdd | sum.c:32 | `sum += x` on a wrapped accumulator gives the wrap of the exact running sum |
| Int32.WrapAddBoth | sum.c:73 | adding two wrapped values and wrapping equals wrapping the exact sum, as for `_mm_add_epi32` lanes and for `sum += finalVec[j]` |
| Int32.CQuot | sum.c:42 | C `/` truncates toward zero: the remainder has the sign of the dividend and is smaller than the divisor |
| Int32.CRem | sum.c:67 | C `%`: `x == x / d * d + x % d`, with the remainder in `[0, d)` for `x >= 0` and in `(-d, 0]` for `x < 0` |
| Int32.WholeChunks | sum.c:86-90 | helper, an arithmetic fact about the bounds used there: `n - n%4` equals `4 * (n/4)`, so `(n - n%4)/4 == n/4`, and it lies between 0 and n |
| Sums.Indices | sum.c:30 | the expected element trace `0, 1, ..., k-1` |
| Sums.Offsets | sum.c:92 | the expected load trace `0, 4, ..., 4(k-1)` |
| Sums.IndicesSnoc | sum.c:30 | helper, a sequence fact: reading index k next extends the trace for `[0, k)` to the trace for `[0, k+1)` |
| Sums.IndicesChunk | sum.c:44-47 | helper, a sequence fact: reading `i, i+1, i+2, i+3` next extends the trace for `[0, i)` to the trace for `[0, i+4)` |
| Sums.OffsetsSnoc | sum.c:92 | helper, a sequence fact: loading chunk k next extends the load trace by offset `4k` |
| Sums.SumSnoc | sum.c:32 | the sum of a prefix one longer adds exactly the next element |
| Sums.SumConcat | sum.c:42-54 | a general fact about `Sum`, for all sequences: the sum of a concatenation is the sum of the parts; `Sums.HeadTail` builds on it |
| Sums.HeadTail | sum.c:42-54 | a 32-bit sum wrapped at the end of a head range `[0, m)` and continued over the tail range `[m, k)` ends at the wrapped sum of `[0, k)`: splitting the range at `m` loses and repeats nothing |
| Sums.AccumulateStep | sum.c:30-33 | one wrapped `sum += s[i]` keeps `sum` equal to the wrapped sum of the prefix read so far |
| Sums.AccumulateFour | sum.c:44-47 | the four wrapped adds of the unrolled body keep `sum` equal to the wrapped prefix sum, now four longer |
| Sums.LaneSumSnoc | sum.c:69 | extending a prefix by one element adds it to the lane of its index mod 4 only |
| Sums.ChunkResidues | sum.c:92-101 | helper for `Sums.LaneSumChunk`, an arithmetic fact: at a chunk boundary the four elements of the chunk fall in lanes 0, 1, 2, 3 |
| Sums.LaneSumChunk | sum.c:68-69 | adding a 4-element chunk at a chunk boundary gives lane j exactly one new element, `s[i + j]` |
| Sums.LanesBelowFour | sum.c:72-74 | the horizontal reduction over `j = 0..3` is lane 0 + lane 1 + lane 2 + lane 3 |
| Sums.LanesPartition | sum.c:72-74 | the four lane sums add up to the whole sum: the residues mod 4 partition the indices |
| Sse2.SetZero | sum.c:62 | `_mm_setzero_si128` has every lane 0 |
| Sse2.LoadU | sum.c:68 | `_mm_loadu_si128(a + i)` has lanes `a[i], ..., a[i+3]`, and is only defined when those four reads are in bounds |
| Sse2.AddEpi32 | sum.c:69 | `_mm_add_epi32` adds lane by lane modulo 2^32 |
| Sse2.StoreU | sum.c:71 | `_mm_storeu_si128` writes the four lanes to `dst[0..4)` and leaves the rest of `dst` unchanged |
| Kernels.ChunkAdded | sum.c:68-69 | adding the next chunk to the register of per-lane sums gives the per-lane sums of the prefix four longer |
| Kernels.VectorAccumulate | sum.c:62-70 | definition, no contract: the register the vector loops build (sum.c:62, 67-70, 89-107), `_mm_add_epi32` of the chunks `0, ..., k-1` in order into `_mm_setzero_si128()`; `Kernels.AccumulatedLanes` states what it holds |
| Kernels.AccumulatedLanes | sum.c:67-70 | after k chunks have been added into a zero register, lane j holds the wrapped sum of `a[i]`, `i < 4k`, `i % 4 == j` |
| Kernels.LoadAdd | sum.c:68-69 | one load-and-add of chunk k at offset `4k` moves the register from the first k chunks to the first k + 1, and records the four indices and the load |
| Kernels.ReduceStep | sum.c:72-74 | `sum += finalVec[j]` keeps `sum` equal to the wrapped sum of lanes `0..j` |
| Kernels.AddedOne | sum.c:30-33 | one `sum += a[i]` moves the scalar state (wrapped prefix sum and index trace) on by one element |
| Kernels.AddedFour | sum.c:44-47 | the unrolled body moves the scalar state on by four elements |
| Kernels.SumNaive | sum.c:27-35 | returns the wrapped sum of `a[0..n)` and reads indices `0..n-1` once each, in order; 0 and no reads for `n <= 0` |
| Kernels.SumUnrolled | sum.c:37-57 | returns the same wrapped sum as `sum_naive` and reads each index once, in order; its contract also states the split: the unrolled loop reads exactly the indices of `[0, n/4*4)` (a prefix of the whole trace) and leaves the wrapped sum of that range, and the tail adds the sum of `[n/4*4, n)` to it |
| Kernels.SumVectorized | sum.c:59-80 | returns the wrapped sum of `a[0..n)`; loads chunks `0..n/4-1` once each at offsets `4k` (no load for `n < 4`); its contract also states the split: the vector loop reads exactly the indices of `[0, n - n%4)` (a prefix of the whole trace), the reduction yields the wrapped sum of that range, and the tail adds the sum of `[n - n%4, n)` to it |
| Kernels.Reduce | sum.c:71-74 | storing a register that holds the per-lane sums of a range and adding its four lanes to a zeroed `sum` gives the wrapped sum of the whole range |
| Kernels.AddTail | sum.c:51-54 | the scalar tail from `start` to `n` extends the state after `a[0..start)` to the state after `a[0..n)` (wrapped prefix sum and index trace, the old trace a prefix of the new one), and adds exactly the sum of `a[start..n)` to the incoming `sum`; nothing is read when `n <= start` |
| Kernels.SplitAt | sum.c:75-77 | helper for `Kernels.AddTail`: `Sums.HeadTail` for the elements of an array: the wrapped sum of `a[0..m)` continued over `a[m..k)` is the wrapped sum of `a[0..k)` |
| Kernels.ReduceAndTail | sum.c:71-77 | from the register accumulated over the chunks of `a[0 .. n - n%4)`: the reduction yields the wrapped sum of that range, the tail adds the sum of `[n - n%4, n)`, and the result is the wrapped sum of `a[0..n)`; the incoming trace is a prefix of the outgoing one |
| Kernels.SumVectorizedUnrolled | sum.c:82-116 | returns the wrapped sum of `a[0..n)`, loads every chunk exactly once at offset `4k`, and reads each index once; the same split as `Kernels.SumVectorized`: the vector loop reads exactly `[0, n - n%4)`, the reduction yields its wrapped sum, and the tail adds the sum of `[n - n%4, n)` |
| Kernels.AccumulateUnrolled | sum.c:88-107 | the outer loop with its nested bound checks adds every chunk `0, ..., (n - n%4)/4 - 1` into the register, each once and in order, so no `break` drops a chunk |
| Harness.Compute | sum.c:118-121 | whichever kernel the function pointer designates, `computeSum(n, a)` is the wrapped sum of `a[0..n)` |
| Harness.AllKernelsAgree | sum.c:27-116 | the unrolled, vectorized and vectorized-unrolled kernels return exactly the result of `sum_naive`, for every `n` and every array |
| Harness.Passes | sum.c:125-132 | definition, no contract: the pass/fail test of `benchmark`, the wrapped sum of the warm-up and timed results equals the wrapped double of the naive result; `Harness.DeterministicPassesIff` characterises it |
| Harness.DeterministicPassesIff | sum.c:121-132 | for a kernel returning r on both calls, the check passes if and only if `r == naive` or `r == naive + 2^31` (wrapped) |
| Harness.Benchmark | sum.c:118-140 | the returned flag is exactly `Harness.Passes` on the warm-up result, the timed result and `sum_naive(n, a)`; all three equal the wrapped sum of `a[0..n)`, so for every kernel and every input the check `sum == 2 * sum_naive(n, a)` succeeds |

## Left out

- The `RDTSC` cycle counter, the conversion to microseconds with
  `CLOCK_RATE_GHZ` and the `printf` report (sum.c:14-25, 124-139): hardware
  timing, floating point and output. `Harness.Benchmark` returns the branch
  taken at the check as a boolean instead.
- `main` (sum.c:142-162): `srand48(time(NULL))`, `lrand48()` and the
  `aligned(16)` attribute are randomness, a clock and memory layout. The
  model takes any array of `int`s and any `n <= a.Length`, so the driver's
  `n = 7777` is one instance.
- The `malloc` of `t` in `sum_vectorized_unrolled` (sum.c:87) is unchecked
  and never freed. The model allocates a fresh 4-int buffer as it does for
  `finalVec`, and does not model the leak or a failed allocation.
- The unused local `size` (sum.c:86) is not modelled.
- Signed overflow of `int` is undefined behaviour in C. The model gives
  every scalar `+=` and the doubling `2 * sum_naive(n, a)` two's-complement
  wrap-around, which is what the benchmark relies on.
- Kernels.ReduceAndTail: the store, the reduction and the scalar tail are
  written once and shared by both vector kernels. In `sum.c` they are two
  copies of the same code (sum.c:71-77 and sum.c:108-114). The store and
  the reduction are the method `Kernels.Reduce`.
- Kernels.AddTail: the scalar tail loop is written once and called by
  `Kernels.SumUnrolled` (start `n/4*4`) and by `Kernels.ReduceAndTail`
  (start `n - n%4`). In `sum.c` it is three copies of one loop
  (sum.c:51-54, 75-77 and 111-113). The order of the additions is the
  same.
- Kernels.AccumulateUnrolled: the outer loop of `sum_vectorized_unrolled` is
  a method of its own, called from `Kernels.SumVectorizedUnrolled`. The
  load-and-add statement of both vector loops is the method
  `Kernels.LoadAdd`. Neither changes the order of operations.
- The function pointer passed to `benchmark` is the datatype
  `Harness.Kernel`, dispatched by `Harness.Compute`. The kernel's `name`
  is only printed and is not modelled.
- Pointer arithmetic on `int *a` is array indexing. The model does not
  state that `a` holds at least `n` elements in any other way than the
  precondition `n <= a.Length`.
