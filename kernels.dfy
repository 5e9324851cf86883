/** The four summation kernels of sum.c. Each takes the C length argument n
    and the buffer a, reads a[0..n) only, and returns the 32-bit
    wrap-around sum of those elements; nothing is read when n <= 0.

    Besides the sum, each kernel returns two ghost traces of what it reads:
    `touched` lists the element indices in the order they are added, and,
    for the vector kernels, `loads` lists the offsets of the 4-wide loads. */
module Kernels {
  import opened Int32
  import opened Sums
  import opened Sse2

  /** The register whose lane j holds the wrapped sum of the elements of s
      at indices congruent to j modulo 4: what a 4-lane accumulator holds
      after s has been fed to it one 4-element chunk at a time. */
  function LaneSums(s: seq<int>): M128i
  {
    M128i(Wrap(LaneSum(s, 0)), Wrap(LaneSum(s, 1)), Wrap(LaneSum(s, 2)), Wrap(LaneSum(s, 3)))
  }

  /** `_mm_add_epi32` of the chunk s[i..i + 4] at a chunk boundary i moves
      the lane sums on from s[..i] to s[..i + 4]. */
  lemma ChunkAdded(s: seq<I32>, i: int)
    requires 0 <= i && i % 4 == 0 && i + 4 <= |s|
    ensures AddEpi32(LaneSums(s[..i]), M128i(s[i], s[i + 1], s[i + 2], s[i + 3])) == LaneSums(s[..i + 4])
  {
    LaneSumChunk(s, i, 0);
    LaneSumChunk(s, i, 1);
    LaneSumChunk(s, i, 2);
    LaneSumChunk(s, i, 3);
    WrapAddBoth(LaneSum(s[..i], 0), s[i]);
    WrapAddBoth(LaneSum(s[..i], 1), s[i + 1]);
    WrapAddBoth(LaneSum(s[..i], 2), s[i + 2]);
    WrapAddBoth(LaneSum(s[..i], 3), s[i + 3]);
  }

  /** The register a vector loop holds after `_mm_add_epi32`-ing the first
      k 4-element chunks of s, in order, into `_mm_setzero_si128()`. */
  function VectorAccumulate(s: seq<I32>, k: nat): M128i
    requires 4 * k <= |s|
  {
    if k == 0 then SetZero()
    else AddEpi32(VectorAccumulate(s, k - 1), M128i(s[4 * k - 4], s[4 * k - 3], s[4 * k - 2], s[4 * k - 1]))
  }

  /** Adding the chunks one after another leaves in lane j the wrapped sum
      of the elements s[i], i < 4 * k, with i % 4 == j. */
  lemma {:induction false} AccumulatedLanes(s: seq<I32>, k: nat)
    requires 4 * k <= |s|
    ensures VectorAccumulate(s, k) == LaneSums(s[..4 * k])
  {
    if k == 0 {
      assert s[..0] == [];
    } else {
      AccumulatedLanes(s, k - 1);
      ChunkAdded(s, 4 * (k - 1));
    }
  }

  /** The element indices of the 4-element chunk c. */
  function ChunkIndices(c: int): seq<int>
  {
    [4 * c, 4 * c + 1, 4 * c + 2, 4 * c + 3]
  }

  /** The state of a vector loop after its first k chunks: the register
      is their `_mm_add_epi32` accumulation, `touched` lists the elements
      read so far and `loads` the offsets loaded, each in order. */
  predicate Accumulated(a: array<I32>, v: M128i, k: nat, touched: seq<int>, loads: seq<int>)
    reads a
  {
    4 * k <= a.Length && v == VectorAccumulate(a[..], k) && touched == Indices(4 * k) && loads == Offsets(k)
  }

  /** `acc = _mm_add_epi32(acc, _mm_loadu_si128((__m128i*)(a + i)))` for
      chunk k at offset i = 4 * k: the accumulator moves on to the first
      k + 1 chunks, and the traces record the four elements and the load. */
  method LoadAdd(a: array<I32>, i: int, acc: M128i, ghost k: nat, ghost touched: seq<int>, ghost loads: seq<int>)
    returns (r: M128i, ghost touched': seq<int>, ghost loads': seq<int>)
    requires i == 4 * k && i + 4 <= a.Length
    requires Accumulated(a, acc, k, touched, loads)
    ensures Accumulated(a, r, k + 1, touched', loads')
  {
    var one := LoadU(a, i);
    r := AddEpi32(acc, one);
    IndicesChunk(i);
    OffsetsSnoc(k);
    touched', loads' := touched + ChunkIndices(k), loads + [i];
  }

  /** One step `sum += buf[j]` of the horizontal reduction. */
  lemma ReduceStep(s: seq<int>, j: nat, acc: int, lane: int)
    requires j < 4
    requires acc == Wrap(LanesBelow(s, j))
    requires lane == Wrap(LaneSum(s, j))
    ensures Wrap(acc + lane) == Wrap(LanesBelow(s, j + 1))
  {
    WrapAddBoth(LanesBelow(s, j), LaneSum(s, j));
  }

  /** The state of a scalar loop that has added a[0], ..., a[i - 1] in
      order: the wrapped prefix sum, and the trace of indices read. */
  predicate Added(a: array<I32>, sum: I32, i: nat, touched: seq<int>)
    reads a
  {
    i <= a.Length && sum == Wrap(Sum(a[..i])) && touched == Indices(i)
  }

  /** One `sum += a[i]` moves the scalar state on by one element. */
  lemma AddedOne(a: array<I32>, i: nat, sum: I32, touched: seq<int>)
    requires i < a.Length && Added(a, sum, i, touched)
    ensures Added(a, Wrap(sum + a[i]), i + 1, touched + [i])
  {
    AccumulateStep(a[..], i, sum);
    IndicesSnoc(i);
  }

  /** The body of the unrolled loop, `sum += a[i + 0]; ...; sum += a[i + 3]`,
      moves the scalar state on by four elements. */
  lemma AddedFour(a: array<I32>, i: nat, sum: I32, touched: seq<int>)
    requires i + 4 <= a.Length && Added(a, sum, i, touched)
    ensures Added(a, Wrap(Wrap(Wrap(Wrap(sum + a[i + 0]) + a[i + 1]) + a[i + 2]) + a[i + 3]), i + 4, touched + [i, i + 1, i + 2, i + 3])
  {
    AccumulateFour(a[..], i, sum);
    IndicesChunk(i);
  }

  /** `Sums.HeadTail` on the elements of an array: a kernel whose head loop
      covers a[0 .. m) and whose tail loop covers a[m .. k). */
  lemma SplitAt(a: array<I32>, m: nat, k: nat)
    requires m <= k <= a.Length
    ensures Wrap(Sum(a[..k])) == Wrap(Wrap(Sum(a[..m])) + Sum(a[m..k]))
  {
    HeadTail(a[..], m, k);
    assert a[..][..k] == a[..k] && a[..][..m] == a[..m] && a[..][m..k] == a[m..k];
  }

  /** `sum_naive`: one `sum += a[i]` per element, left to right. */
  method SumNaive(n: I32, a: array<I32>) returns (sum: I32, ghost touched: seq<int>)
    requires n <= a.Length
    ensures sum == Wrap(Sum(a[..Count(n)]))
    ensures touched == Indices(Count(n))
  {
    sum := 0;
    touched := [];
    var i: I32 := 0;
    while i < n
      invariant 0 <= i <= Count(n)
      invariant Added(a, sum, i, touched)
    {
      AddedOne(a, i, sum, touched);
      sum := Wrap(sum + a[i]);
      touched := touched + [i];
      i := i + 1;
    }
  }

  /** `sum_unrolled`: four scalar adds per iteration over [0, n / 4 * 4),
      then a scalar tail over [n / 4 * 4, n). */
  method SumUnrolled(n: I32, a: array<I32>)
    returns (sum: I32, ghost touched: seq<int>, ghost mainTouched: seq<int>, ghost mainSum: I32)
    requires n <= a.Length
    ensures sum == Wrap(Sum(a[..Count(n)]))
    ensures touched == Indices(Count(n))
    // the unrolled loop reads [0, n / 4 * 4) and the tail reads the rest
    ensures mainTouched == Indices(Count(CQuot(n, 4) * 4)) && mainTouched <= touched
    ensures mainSum == Wrap(Sum(a[..Count(CQuot(n, 4) * 4)]))
    ensures sum == Wrap(mainSum + Sum(a[Count(CQuot(n, 4) * 4)..Count(n)]))
  {
    sum := 0;
    touched := [];

    // unrolled loop; i is 4 * (number of iterations so far)
    ghost var k: nat := 0;
    ghost var q := Count(CQuot(n, 4));
    var i: I32 := 0;
    while i < CQuot(n, 4) * 4
      invariant k <= q && i == 4 * k
      invariant Added(a, sum, i, touched)
    {
      AddedFour(a, i, sum, touched);
      sum := Wrap(sum + a[i + 0]);
      sum := Wrap(sum + a[i + 1]);
      sum := Wrap(sum + a[i + 2]);
      sum := Wrap(sum + a[i + 3]);
      touched := touched + [i, i + 1, i + 2, i + 3];
      i, k := i + 4, k + 1;
    }

    mainTouched, mainSum := touched, sum;

    // tail case
    sum, touched := AddTail(n, a, CQuot(n, 4) * 4, sum, touched);
  }

  /** The scalar tail loop `for (i = start; i < n; i++) sum += a[i]`, which
      ends each kernel: from the state after a[0 .. start), add the rest of
      a[0 .. n) one element at a time. The tail starts inside [0, n], or at
      or above a negative n, where it reads nothing. */
  method AddTail(n: I32, a: array<I32>, start: I32, sum0: I32, ghost touched0: seq<int>)
    returns (sum: I32, ghost touched: seq<int>)
    requires n <= a.Length
    requires 0 <= start <= n || n <= start <= 0
    requires Added(a, sum0, Count(start), touched0)
    ensures Added(a, sum, Count(n), touched) && touched0 <= touched
    ensures sum == Wrap(sum0 + Sum(a[Count(start)..Count(n)]))
  {
    sum, touched := sum0, touched0;
    var i := start;
    while i < n
      invariant start <= i <= Count(n) || i == start <= 0
      invariant Added(a, sum, Count(i), touched)
      invariant touched0 <= touched
    {
      AddedOne(a, i, sum, touched);
      sum := Wrap(sum + a[i]);
      touched := touched + [i];
      i := i + 1;
    }
    assert Count(i) == Count(n);
    SplitAt(a, Count(start), Count(n));
  }

  /** `sum_vectorized`: a 4-lane accumulator over [0, n - n % 4), stored to
      a 4-int buffer and reduced horizontally, then a scalar tail over
      [n - n % 4, n). */
  method SumVectorized(n: I32, a: array<I32>)
    returns (sum: I32, ghost touched: seq<int>, ghost loads: seq<int>,
             ghost mainTouched: seq<int>, ghost mainSum: I32)
    requires n <= a.Length
    ensures sum == Wrap(Sum(a[..Count(n)]))
    ensures touched == Indices(Count(n))
    ensures loads == Offsets(Count(CQuot(n, 4)))
    // the vector loop reads [0, n - n % 4), the tail reads the rest, and
    // the horizontal reduction yields the wrapped sum of the vector part
    ensures mainTouched == Indices(Count(n - CRem(n, 4))) && mainTouched <= touched
    ensures mainSum == Wrap(Sum(a[..Count(n - CRem(n, 4))]))
    ensures sum == Wrap(mainSum + Sum(a[Count(n - CRem(n, 4))..Count(n)]))
  {
    WholeChunks(n);
    var vecSum := SetZero();
    touched, loads := [], [];
    // number of chunks added to vecSum so far
    ghost var done: nat := 0;
    var i: I32 := 0;
    while i < n - CRem(n, 4)
      invariant 0 <= i <= Count(n - CRem(n, 4)) && i == 4 * done
      invariant Accumulated(a, vecSum, done, touched, loads)
    {
      vecSum, touched, loads := LoadAdd(a, i, vecSum, done, touched, loads);
      done := done + 1;
      i := i + 4;
    }
    mainTouched := touched;
    sum, touched, mainSum := ReduceAndTail(n, a, vecSum, done, touched);
  }

  /** The horizontal reduction: store the accumulator to a 4-int buffer and
      add its four lanes to a zeroed `sum`. A register holding the per-lane
      sums of `body` reduces to the wrapped sum of `body`. */
  method Reduce(acc: M128i, ghost body: seq<I32>) returns (sum: I32)
    requires acc == LaneSums(body)
    ensures sum == Wrap(Sum(body))
  {
    var buf := new I32[4];
    sum := 0;
    StoreU(buf, acc);
    for j := 0 to 4
      invariant forall k :: 0 <= k < 4 ==> buf[k] == Lane(acc, k)
      invariant sum == Wrap(LanesBelow(body, j))
    {
      ReduceStep(body, j, sum, buf[j]);
      sum := Wrap(sum + buf[j]);
    }
    LanesPartition(body);
  }

  /** The epilogue the two vector kernels share: the horizontal reduction
      of the accumulator, then the scalar tail a[n - n % 4 .. n). */
  method ReduceAndTail(n: I32, a: array<I32>, acc: M128i, ghost done: nat, ghost touched0: seq<int>)
    returns (sum: I32, ghost touched: seq<int>, ghost reduced: I32)
    requires n <= a.Length
    requires 4 * done == Count(n - CRem(n, 4))
    requires acc == VectorAccumulate(a[..], done)
    requires touched0 == Indices(4 * done)
    ensures sum == Wrap(Sum(a[..Count(n)]))
    ensures touched == Indices(Count(n)) && touched0 <= touched
    // the reduction of the stored lanes is the wrapped sum of the vector
    // part, and the tail continues from it
    ensures reduced == Wrap(Sum(a[..4 * done]))
    ensures sum == Wrap(reduced + Sum(a[4 * done..Count(n)]))
  {
    AccumulatedLanes(a[..], done);
    assert a[..][..4 * done] == a[..4 * done];
    sum := Reduce(acc, a[..4 * done]);
    reduced := sum;
    sum, touched := AddTail(n, a, n - CRem(n, 4), sum, touched0);
  }

  /** `sum_vectorized_unrolled`: the vector loop, then the reduction and
      the scalar tail of `sum_vectorized`. */
  method SumVectorizedUnrolled(n: I32, a: array<I32>)
    returns (sum: I32, ghost touched: seq<int>, ghost loads: seq<int>,
             ghost mainTouched: seq<int>, ghost mainSum: I32)
    requires n <= a.Length
    ensures sum == Wrap(Sum(a[..Count(n)]))
    ensures touched == Indices(Count(n))
    ensures loads == Offsets(Count(CQuot(n, 4)))
    // the vector loop reads [0, n - n % 4), the tail reads the rest, and
    // the horizontal reduction yields the wrapped sum of the vector part
    ensures mainTouched == Indices(Count(n - CRem(n, 4))) && mainTouched <= touched
    ensures mainSum == Wrap(Sum(a[..Count(n - CRem(n, 4))]))
    ensures sum == Wrap(mainSum + Sum(a[Count(n - CRem(n, 4))..Count(n)]))
  {
    var vectorSum;
    ghost var done;
    vectorSum, done, mainTouched, loads := AccumulateUnrolled(n, a);
    sum, touched, mainSum := ReduceAndTail(n, a, vectorSum, done, mainTouched);
  }

  /** The vector loop of `sum_vectorized_unrolled`: the outer index p
      counts 4-int chunks and steps by four chunks; chunk k is loaded from
      offset 4 * k. A failed bound check breaks out, which happens only
      when fewer than four chunks remain, so every chunk is added once. */
  method AccumulateUnrolled(n: I32, a: array<I32>)
    returns (vectorSum: M128i, ghost done: nat, ghost touched: seq<int>, ghost loads: seq<int>)
    requires n <= a.Length
    ensures 4 * done == Count(n - CRem(n, 4)) && done == Count(CQuot(n, 4))
    ensures Accumulated(a, vectorSum, done, touched, loads)
  {
    vectorSum := SetZero();
    touched, loads := [], [];
    // number of chunks added to vectorSum so far
    done := 0;
    ghost var chunks := CQuot(n, 4);
    WholeChunks(n);
    var p: I32 := 0;
    while p < CQuot(n - CRem(n, 4), 4)
      invariant 0 <= p <= Count(chunks)
      invariant done == p
      invariant Accumulated(a, vectorSum, done, touched, loads)
    {
      if p * 4 < n - CRem(n, 4) {
        vectorSum, touched, loads := LoadAdd(a, p * 4, vectorSum, done, touched, loads);
        done := done + 1;
        if (p + 1) * 4 < n - CRem(n, 4) {
          vectorSum, touched, loads := LoadAdd(a, (p + 1) * 4, vectorSum, done, touched, loads);
          done := done + 1;
          if (p + 2) * 4 < n - CRem(n, 4) {
            vectorSum, touched, loads := LoadAdd(a, (p + 2) * 4, vectorSum, done, touched, loads);
            done := done + 1;
            if (p + 3) * 4 < n - CRem(n, 4) {
              vectorSum, touched, loads := LoadAdd(a, (p + 3) * 4, vectorSum, done, touched, loads);
              done := done + 1;
            } else {
              // exactly three chunks were left: the last outer iteration
              assert done == chunks;
              break;
            }
          } else {
            assert done == chunks;
            break;
          }
        } else {
          assert done == chunks;
          break;
        }
      } else {
        // unreachable: the loop guard gives p * 4 < n - n % 4
        assert false;
        break;
      }
      p := p + 4;
    }
  }
}
