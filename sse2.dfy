/** The four SSE2 intrinsics the vector kernels use, by their documented
    semantics on a 128-bit register viewed as four 32-bit integer lanes. */
module Sse2 {
  import opened Int32

  /** An `__m128i` register: lane 0 is the lowest-addressed 32-bit int. */
  datatype M128i = M128i(l0: I32, l1: I32, l2: I32, l3: I32)

  function Lane(v: M128i, j: int): I32
    requires 0 <= j < 4
  {
    if j == 0 then v.l0 else if j == 1 then v.l1 else if j == 2 then v.l2 else v.l3
  }

  /** `_mm_setzero_si128`: every lane 0. */
  function SetZero(): (v: M128i)
    ensures forall j :: 0 <= j < 4 ==> Lane(v, j) == 0
  {
    M128i(0, 0, 0, 0)
  }

  /** `_mm_loadu_si128((__m128i*)(a + i))`: lanes a[i], ..., a[i + 3], at any
      alignment. The four ints read must lie inside the buffer. */
  function LoadU(a: array<I32>, i: int): (v: M128i)
    reads a
    requires 0 <= i && i + 4 <= a.Length
    ensures forall j :: 0 <= j < 4 ==> Lane(v, j) == a[i + j]
  {
    M128i(a[i], a[i + 1], a[i + 2], a[i + 3])
  }

  /** `_mm_add_epi32` (PADDD): lane-wise addition modulo 2^32. */
  function AddEpi32(u: M128i, v: M128i): (w: M128i)
    ensures forall j :: 0 <= j < 4 ==> Lane(w, j) == Wrap(Lane(u, j) + Lane(v, j))
  {
    M128i(Wrap(u.l0 + v.l0), Wrap(u.l1 + v.l1), Wrap(u.l2 + v.l2), Wrap(u.l3 + v.l3))
  }

  /** `_mm_storeu_si128((__m128i*)dst, v)`: writes the four lanes to
      dst[0..4) and nothing else. */
  method StoreU(dst: array<I32>, v: M128i)
    requires 4 <= dst.Length
    modifies dst
    ensures forall j :: 0 <= j < 4 ==> dst[j] == Lane(v, j)
    ensures dst[4..] == old(dst[4..])
  {
    dst[0], dst[1], dst[2], dst[3] := v.l0, v.l1, v.l2, v.l3;
  }
}
