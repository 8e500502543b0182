/** Splitting a blob into byte ranges. */
module Chunking {
  import opened Collections

  datatype Chunk = Chunk(index: nat, start: nat, end: nat, total: nat)

  /** `u64::div_ceil`. */
  function DivCeil(a: nat, b: nat): (q: nat)
    requires 0 < b
  {
    if a % b == 0 then a / b else a / b + 1
  }

  ghost predicate IsCeil(a: nat, b: nat, q: nat) {
    a <= q * b && (q == 0 || (q - 1) * b < a)
  }

  lemma DivCeilIsCeil(a: nat, b: nat)
    requires 0 < b
    ensures IsCeil(a, b, DivCeil(a, b))
  {
    var d, m := a / b, a % b;
    assert a == d * b + m;
    assert (d + 1) * b == d * b + b && (d - 1) * b == d * b - b;
  }

  lemma CeilUnique(a: nat, b: nat, p: nat, q: nat)
    requires IsCeil(a, b, p) && IsCeil(a, b, q)
    ensures p == q
  {
    MulMonotone(q, p - 1, b);
    MulMonotone(p, q - 1, b);
  }

  lemma MulMonotone(x: int, y: int, b: nat)
    ensures x <= y ==> x * b <= y * b
  {
  }

  /** Gap-free and overlap-free: the chunks tile `0 .. total` in order. */
  ghost predicate Tiles(cs: seq<Chunk>, total: nat) {
    && (forall i :: 0 <= i < |cs| ==> cs[i].index == i && cs[i].total == total && cs[i].start <= cs[i].end < total)
    && (cs != [] ==> cs[0].start == 0)
    && (forall i :: 1 <= i < |cs| ==> cs[i].start == cs[i - 1].end + 1)
    && (total == if cs == [] then 0 else cs[|cs| - 1].end + 1)
  }

  /** All chunks have `size` bytes, except that the last may be shorter. */
  ghost predicate Sized(cs: seq<Chunk>, size: nat) {
    forall i :: 0 <= i < |cs| ==>
      if i < |cs| - 1 then cs[i].end - cs[i].start + 1 == size else cs[i].end - cs[i].start + 1 <= size
  }

  /** The chunks so far tile `0 .. start`, all of full size unless they already reach the end. */
  ghost predicate Partial(cs: seq<Chunk>, start: nat, total: nat, size: nat) {
    && start <= total && start == (if cs == [] then 0 else cs[|cs| - 1].end + 1)
    && (forall i :: 0 <= i < |cs| ==> cs[i].index == i && cs[i].total == total && cs[i].start <= cs[i].end < total)
    && (cs != [] ==> cs[0].start == 0)
    && (forall i :: 1 <= i < |cs| ==> cs[i].start == cs[i - 1].end + 1)
    && (forall i :: 0 <= i < |cs| ==> cs[i].end - cs[i].start + 1 <= size)
    && (forall i :: 0 <= i < |cs| && (i < |cs| - 1 || start < total) ==> cs[i].end - cs[i].start + 1 == size)
  }

  lemma AddChunk(cs: seq<Chunk>, start: nat, total: nat, size: nat)
    requires Partial(cs, start, total, size) && start < total && 0 < size
    ensures var end := Min(start + size - 1, total - 1);
            Partial(cs + [Chunk(|cs|, start, end, total)], end + 1, total, size)
  {
  }

  lemma {:induction false} SplitStarts(cs: seq<Chunk>, total: nat, size: nat, i: nat)
    requires Tiles(cs, total) && Sized(cs, size) && i < |cs|
    ensures cs[i].start == i * size
  {
    if 0 < i {
      SplitStarts(cs, total, size, i - 1);
      assert i * size == (i - 1) * size + size;
    }
  }

  /** Chunk `i` of an object, by arithmetic. */
  function ChunkAt(total: nat, size: nat, i: nat): Chunk {
    Chunk(i, i * size, Max(Min(i * size + size, total) - 1, 0), total)
  }

  lemma SplitAt(cs: seq<Chunk>, total: nat, size: nat, i: nat)
    requires Tiles(cs, total) && Sized(cs, size) && i < |cs|
    ensures cs[i] == ChunkAt(total, size, i)
  {
    SplitStarts(cs, total, size, i);
    if i < |cs| - 1 { SplitStarts(cs, total, size, i + 1); }
  }

  /** Every tiling into chunks of this size has the planned number of them. */
  lemma SplitLength(cs: seq<Chunk>, total: nat, size: nat)
    requires Tiles(cs, total) && Sized(cs, size) && 0 < size
    ensures |cs| == DivCeil(total, size)
  {
    DivCeilIsCeil(total, size);
    if cs != [] {
      var n := |cs|;
      SplitStarts(cs, total, size, n - 1);
      assert n * size == (n - 1) * size + size;
      CeilUnique(total, size, n, DivCeil(total, size));
    }
  }

  const U64_RANGE: nat := U64_MAX + 1

  /** `start + size - 1` in wrapping `u64` arithmetic, left to right. */
  function WrappedEnd(start: nat, size: nat): int { ((start + size) % U64_RANGE - 1) % U64_RANGE }

  /** Every chunk end can be computed: rounded up to whole chunks, the object stays within 2^64. */
  predicate EndsFit(total: nat, size: nat) {
    0 < size <= U64_MAX && total <= U64_MAX && DivCeil(total, size) * size <= U64_RANGE
  }

  /** The end of chunk `i` comes out right exactly when the chunk, taken whole, stays within 2^64;
      otherwise it wraps to a place before its start. */
  lemma EndExactly(start: nat, size: nat)
    requires start <= U64_MAX && 0 < size <= U64_MAX
    ensures WrappedEnd(start, size) == start + size - 1 <==> start + size <= U64_RANGE
    ensures U64_RANGE < start + size ==> WrappedEnd(start, size) < start
  {
  }

  /** All chunk ends come out right if and only if the object rounded up to whole chunks stays within
      2^64. If it does not, the end of the last chunk wraps to before its start, and the walk over the
      chunks goes back instead of on. */
  lemma EndsFitExactly(total: nat, size: nat)
    requires total <= U64_MAX && 0 < size <= U64_MAX
    ensures EndsFit(total, size) <==>
            forall i :: 0 <= i < DivCeil(total, size) ==> WrappedEnd(i * size, size) == i * size + size - 1
    ensures !EndsFit(total, size) ==>
              var last := (DivCeil(total, size) - 1) * size; 0 <= last < total && WrappedEnd(last, size) + 1 <= last
  {
    if EndsFit(total, size) {
      forall i | 0 <= i < DivCeil(total, size) ensures WrappedEnd(i * size, size) == i * size + size - 1 {
        WholeEnd(total, size, i);
      }
    } else {
      LastEndWraps(total, size);
    }
  }

  lemma WholeEnd(total: nat, size: nat, i: nat)
    requires EndsFit(total, size) && i < DivCeil(total, size)
    ensures WrappedEnd(i * size, size) == i * size + size - 1
  {
    MulMonotone(i + 1, DivCeil(total, size), size);
    assert (i + 1) * size == i * size + size;
    EndExactly(i * size, size);
  }

  lemma LastEndWraps(total: nat, size: nat)
    requires total <= U64_MAX && 0 < size <= U64_MAX && !EndsFit(total, size)
    ensures var n := DivCeil(total, size); var last := (n - 1) * size;
            0 < n && 0 <= last < total && WrappedEnd(last, size) < last
  {
    var n := DivCeil(total, size);
    DivCeilIsCeil(total, size);
    assert 0 < n;
    assert n * size == (n - 1) * size + size;
    EndExactly((n - 1) * size, size);
  }

  /** Such sizes exist: with chunks of 2^63 + 1 bytes the second chunk of the largest object wraps. */
  lemma EndsCanWrap()
    ensures var size := U64_RANGE / 2 + 1; DivCeil(U64_MAX, size) == 2 && !EndsFit(U64_MAX, size) && WrappedEnd(size, size) == 1
  {
  }

  lemma NextEnd(cs: seq<Chunk>, start: nat, total: nat, size: nat)
    requires Partial(cs, start, total, size) && start < total && EndsFit(total, size)
    ensures WrappedEnd(start, size) == start + size - 1
  {
    FullStarts(cs, start, total, size, |cs|);
    DivCeilIsCeil(total, size);
    MulMonotone(DivCeil(total, size), |cs|, size);
    WholeEnd(total, size, |cs|);
  }

  lemma NextChunk(cs: seq<Chunk>, start: nat, total: nat, size: nat)
    requires Partial(cs, start, total, size) && start < total && EndsFit(total, size)
    ensures var end := Min(WrappedEnd(start, size), total - 1);
            start <= end && Partial(cs + [Chunk(|cs|, start, end, total)], end + 1, total, size)
  {
    NextEnd(cs, start, total, size);
    AddChunk(cs, start, total, size);
  }

  lemma PartialIsTiling(cs: seq<Chunk>, total: nat, size: nat)
    requires Partial(cs, total, total, size) && 0 < size
    ensures Tiles(cs, total) && Sized(cs, size) && |cs| == DivCeil(total, size)
  {
    SplitLength(cs, total, size);
  }

  lemma {:induction false} FullStarts(cs: seq<Chunk>, start: nat, total: nat, size: nat, i: nat)
    requires Partial(cs, start, total, size) && start < total && i <= |cs|
    ensures (if i < |cs| then cs[i].start else start) == i * size
  {
    if 0 < i {
      FullStarts(cs, start, total, size, i - 1);
      assert i * size == (i - 1) * size + size;
      assert cs[i - 1].end == cs[i - 1].start + size - 1;
    }
  }

  /** The chunk list the downloader walks. Its length is the planner's chunk count. */
  method SplitChunks(total: nat, size: nat) returns (cs: seq<Chunk>)
    requires EndsFit(total, size)
    ensures Tiles(cs, total) && Sized(cs, size)
    ensures |cs| == DivCeil(total, size)
    ensures forall i :: 0 <= i < |cs| ==> cs[i] == ChunkAt(total, size, i)
  {
    cs := [];
    var start := 0;
    while start < total
      invariant Partial(cs, start, total, size)
    {
      NextChunk(cs, start, total, size);
      var end := Min(WrappedEnd(start, size), total - 1);
      cs := cs + [Chunk(|cs|, start, end, total)];
      start := end + 1;
    }
    PartialIsTiling(cs, total, size);
    forall i | 0 <= i < |cs| ensures cs[i] == ChunkAt(total, size, i) { SplitAt(cs, total, size, i); }
  }

  /** Every byte lies in exactly one chunk of a tiling. */
  lemma {:induction false} TilesCoverOnce(cs: seq<Chunk>, total: nat, b: nat)
    requires Tiles(cs, total) && b < total
    ensures exists i :: 0 <= i < |cs| && cs[i].start <= b <= cs[i].end
    ensures forall i, k :: 0 <= i < |cs| && 0 <= k < |cs| && cs[i].start <= b <= cs[i].end && cs[k].start <= b <= cs[k].end ==> i == k
  {
    var i := 0;
    while cs[i].end < b
      invariant 0 <= i < |cs|
      invariant cs[i].start <= b
      decreases |cs| - i
    {
      i := i + 1;
    }
    assert cs[i].start <= b <= cs[i].end;
    forall i, k | 0 <= i < k < |cs| ensures cs[i].end < cs[k].start {
      StartsIncrease(cs, total, i, k);
    }
  }

  lemma {:induction false} StartsIncrease(cs: seq<Chunk>, total: nat, i: nat, k: nat)
    requires Tiles(cs, total) && i < k < |cs|
    ensures cs[i].end < cs[k].start
    decreases k
  {
    if i < k - 1 { StartsIncrease(cs, total, i, k - 1); }
  }
}
