/** Specification of what every kernel computes: sums over mathematical
    integers, the per-lane sums a 4-lane accumulator builds, and the index
    sequences the kernels read. */
module Sums {
  import opened Int32

  /** Left-to-right sum of s, in the order `sum_naive` adds. */
  function Sum(s: seq<int>): int
  {
    if s == [] then 0 else Sum(s[..|s| - 1]) + s[|s| - 1]
  }

  /** Sum of the elements s[i] whose index satisfies i % 4 == j: what lane j
      of a 4-lane accumulator collects when s is fed to it 4 at a time. */
  function LaneSum(s: seq<int>, j: int): int
  {
    if s == [] then 0
    else LaneSum(s[..|s| - 1], j) + (if (|s| - 1) % 4 == j then s[|s| - 1] else 0)
  }

  /** LaneSum(s, 0) + ... + LaneSum(s, j - 1): the horizontal reduction of
      the first j lanes. */
  function LanesBelow(s: seq<int>, j: nat): int
  {
    if j == 0 then 0 else LanesBelow(s, j - 1) + LaneSum(s, j - 1)
  }

  /** The number of elements a call with length argument n reads:
      nothing when n is negative. */
  function Count(n: int): nat
  {
    if n < 0 then 0 else n
  }

  /** The indices 0, 1, ..., k - 1, each once and in increasing order. */
  function Indices(k: nat): (r: seq<int>)
    ensures |r| == k && forall i :: 0 <= i < k ==> r[i] == i
  {
    seq(k, i => i)
  }

  /** The offsets 0, 4, ..., 4 * (k - 1) of k consecutive 4-element chunks. */
  function Offsets(k: nat): (r: seq<int>)
    ensures |r| == k && forall c :: 0 <= c < k ==> r[c] == 4 * c
  {
    seq(k, c => 4 * c)
  }

  lemma IndicesSnoc(k: nat)
    ensures Indices(k) + [k] == Indices(k + 1)
  {
  }

  lemma IndicesChunk(k: nat)
    ensures Indices(k) + [k, k + 1, k + 2, k + 3] == Indices(k + 4)
  {
  }

  lemma OffsetsSnoc(k: nat)
    ensures Offsets(k) + [4 * k] == Offsets(k + 1)
  {
  }

  lemma SumSnoc(s: seq<int>, i: int)
    requires 0 <= i < |s|
    ensures Sum(s[..i + 1]) == Sum(s[..i]) + s[i]
  {
    assert s[..i + 1][..i] == s[..i];
  }

  /** Summation distributes over concatenation: splitting [0, n) into a
      head range and a tail range loses and duplicates nothing. */
  lemma {:induction false} SumConcat(s: seq<int>, t: seq<int>)
    ensures Sum(s + t) == Sum(s) + Sum(t)
  {
    if t == [] {
      assert s + t == s;
    } else {
      SumConcat(s, t[..|t| - 1]);
      assert (s + t)[..|s + t| - 1] == s + t[..|t| - 1];
    }
  }

  /** A 32-bit sum wrapped at the end of a head range [0, m) and continued
      over the tail range [m, k) ends at the wrapped sum of [0, k). */
  lemma HeadTail(s: seq<int>, m: nat, k: nat)
    requires m <= k <= |s|
    ensures Wrap(Sum(s[..k])) == Wrap(Wrap(Sum(s[..m])) + Sum(s[m..k]))
  {
    assert s[..m] + s[m..k] == s[..k];
    SumConcat(s[..m], s[m..k]);
    WrapAdd(Sum(s[..m]), Sum(s[m..k]));
  }

  /** One step of a scalar `sum += s[i]` loop keeps the accumulator equal
      to the wrapped sum of the prefix read so far. */
  lemma AccumulateStep(s: seq<int>, i: int, acc: int)
    requires 0 <= i < |s|
    requires acc == Wrap(Sum(s[..i]))
    ensures Wrap(acc + s[i]) == Wrap(Sum(s[..i + 1]))
  {
    SumSnoc(s, i);
    WrapAdd(Sum(s[..i]), s[i]);
  }

  /** Four scalar steps `sum += s[i + 0]; ...; sum += s[i + 3]`, as in the
      body of the unrolled loop. */
  lemma AccumulateFour(s: seq<int>, i: int, acc: int)
    requires 0 <= i && i + 4 <= |s|
    requires acc == Wrap(Sum(s[..i]))
    ensures Wrap(Wrap(Wrap(Wrap(acc + s[i]) + s[i + 1]) + s[i + 2]) + s[i + 3]) == Wrap(Sum(s[..i + 4]))
  {
    AccumulateStep(s, i, acc);
    AccumulateStep(s, i + 1, Wrap(acc + s[i]));
    AccumulateStep(s, i + 2, Wrap(Wrap(acc + s[i]) + s[i + 1]));
    AccumulateStep(s, i + 3, Wrap(Wrap(Wrap(acc + s[i]) + s[i + 1]) + s[i + 2]));
  }

  lemma LaneSumSnoc(s: seq<int>, i: int, j: int)
    requires 0 <= i < |s|
    ensures LaneSum(s[..i + 1], j) == LaneSum(s[..i], j) + (if i % 4 == j then s[i] else 0)
  {
    assert s[..i + 1][..i] == s[..i];
  }

  /** Adding the 4-element chunk at offset i (a multiple of 4) gives lane j
      exactly one new element, s[i + j]. */
  lemma LaneSumChunk(s: seq<int>, i: int, j: int)
    requires 0 <= i && i % 4 == 0 && i + 4 <= |s|
    requires 0 <= j < 4
    ensures LaneSum(s[..i + 4], j) == LaneSum(s[..i], j) + s[i + j]
  {
    ChunkResidues(i);
    var l0 := LaneSum(s[..i], j);
    LaneSumSnoc(s, i, j);
    var l1 := l0 + (if j == 0 then s[i] else 0);
    assert LaneSum(s[..i + 1], j) == l1;
    LaneSumSnoc(s, i + 1, j);
    var l2 := l1 + (if j == 1 then s[i + 1] else 0);
    assert LaneSum(s[..i + 2], j) == l2;
    LaneSumSnoc(s, i + 2, j);
    var l3 := l2 + (if j == 2 then s[i + 2] else 0);
    assert LaneSum(s[..i + 3], j) == l3;
    LaneSumSnoc(s, i + 3, j);
    assert LaneSum(s[..i + 4], j) == l3 + (if j == 3 then s[i + 3] else 0);
  }

  lemma ChunkResidues(i: int)
    requires i % 4 == 0
    ensures (i + 1) % 4 == 1 && (i + 2) % 4 == 2 && (i + 3) % 4 == 3
  {
  }

  /** The four lanes partition the indices by residue mod 4, so their
      horizontal sum is the whole sum. */
  lemma {:induction false} LanesPartition(s: seq<int>)
    ensures LanesBelow(s, 4) == Sum(s)
  {
    if s != [] {
      var init := s[..|s| - 1];
      LanesPartition(init);
      LanesBelowFour(init);
      LanesBelowFour(s);
      var last := |s| - 1;
      assert Sum(s) == Sum(init) + s[last];
      assert LaneSum(s, 0) == LaneSum(init, 0) + (if last % 4 == 0 then s[last] else 0);
      assert LaneSum(s, 1) == LaneSum(init, 1) + (if last % 4 == 1 then s[last] else 0);
      assert LaneSum(s, 2) == LaneSum(init, 2) + (if last % 4 == 2 then s[last] else 0);
      assert LaneSum(s, 3) == LaneSum(init, 3) + (if last % 4 == 3 then s[last] else 0);
    } else {
      LanesBelowFour(s);
    }
  }

  lemma LanesBelowFour(s: seq<int>)
    ensures LanesBelow(s, 4) == LaneSum(s, 0) + LaneSum(s, 1) + LaneSum(s, 2) + LaneSum(s, 3)
  {
    assert LanesBelow(s, 1) == LaneSum(s, 0);
    assert LanesBelow(s, 2) == LaneSum(s, 0) + LaneSum(s, 1);
    assert LanesBelow(s, 3) == LaneSum(s, 0) + LaneSum(s, 1) + LaneSum(s, 2);
  }
}
