/** The two adaptive chunk-size computations, in saturating `u64` arithmetic, and the concurrency
    that fits a stream's memory budget. */
module ChunkSizes {
  import opened Collections
  import opened Chunking
  import opened MemoryBudget

  const MIB: nat := 1024 * 1024
  const MIN_CHUNK: nat := 2 * MIB
  const MAX_CHUNK: nat := 8 * MIB
  const TARGET_WAVES: nat := 4

  function Clamp(x: nat, lo: nat, hi: nat): nat
    requires lo <= hi
  {
    Max(lo, Min(x, hi))
  }

  function TargetChunks(concurrency: nat): nat { SatMul(concurrency, TARGET_WAVES) }

  /** The planner's chunk size, for any configured bounds. */
  function PlannerChunkSize(size: nat, concurrency: nat, lo: nat, hi: nat): nat
    requires lo <= hi
  {
    Clamp(SatMul(DivCeil(DivCeil(size, Max(TargetChunks(concurrency), 1)), MIB), MIB), lo, hi)
  }

  /** The scheduler's chunk size: rounding up by adding first, which can saturate. */
  function SchedulerChunkSize(total: nat, concurrency: nat): nat
    requires 0 < concurrency
  {
    var target := TargetChunks(concurrency);
    var ideal := SatAdd(total, SatSub(target, 1)) / target;
    Clamp(SatMul(SatAdd(ideal, MIB - 1) / MIB, MIB), MIN_CHUNK, MAX_CHUNK)
  }

  // ------------------------------------------------------------------ rounding up

  lemma CeilByAdding(a: nat, b: nat)
    requires 0 < b
    ensures (a + b - 1) / b == DivCeil(a, b)
  {
    var q := (a + b - 1) / b;
    var m := (a + b - 1) % b;
    assert a + b - 1 == q * b + m;
    assert (q - 1) * b == q * b - b;
    DivCeilIsCeil(a, b);
    CeilUnique(a, b, q, DivCeil(a, b));
  }

  function RoundUp(q: nat): nat { DivCeil(q, MIB) * MIB }

  /** One more byte rounds up to one more MiB exactly at a multiple. */
  lemma RoundUpNext(q: nat)
    ensures q <= RoundUp(q) < q + MIB
    ensures RoundUp(q + 1) == if q % MIB == 0 then RoundUp(q) + MIB else RoundUp(q)
    ensures q % MIB == 0 ==> RoundUp(q) == q
  {
    assert q == q / MIB * MIB + q % MIB;
  }

  /** When the scheduler's sum saturates, its quotient is the planner's or one less. */
  lemma SaturatedIdeal(total: nat, target: nat)
    requires 4 <= target <= U64_MAX && total <= U64_MAX
    ensures var q := U64_MAX / target;
            total + target - 1 > U64_MAX ==> DivCeil(total, target) == if total > q * target then q + 1 else q
  {
    var q := U64_MAX / target;
    if total + target - 1 > U64_MAX {
      QuotientBounds(U64_MAX, target);
      SaturatedCeil(total, target, q);
      DivCeilIsCeil(total, target);
      CeilUnique(total, target, DivCeil(total, target), if total > q * target then q + 1 else q);
    }
  }

  lemma SaturatedCeil(total: nat, target: nat, q: nat)
    requires q * target <= U64_MAX < (q + 1) * target && U64_MAX < total + target - 1 && total <= U64_MAX
    ensures IsCeil(total, target, if total > q * target then q + 1 else q)
  {
    assert (q + 1) * target == q * target + target;
    assert (q - 1) * target == q * target - target;
  }

  lemma QuotientBounds(a: nat, b: nat)
    requires 0 < b
    ensures a / b * b <= a < (a / b + 1) * b
  {
    assert a == a / b * b + a % b;
    assert (a / b + 1) * b == a / b * b + b;
  }

  lemma TimesFour(q: nat, b: nat, a: nat)
    requires 4 <= b && q * b <= a
    ensures 4 * q <= a
  {
    MulMonotone(4, b, q);
  }

  lemma QuotientOfFour(a: nat, b: nat)
    requires 4 <= b
    ensures 4 * (a / b) <= a
  {
    var q := a / b;
    assert q * b <= a by { QuotientBounds(a, b); }
    TimesFour(q, b, a);
  }

  /** Neither saturation after the division can happen. */
  lemma Rounded(ideal: nat)
    requires ideal <= U64_MAX / 4 + 1
    ensures SatMul(SatAdd(ideal, MIB - 1) / MIB, MIB) == RoundUp(ideal)
    ensures SatMul(DivCeil(ideal, MIB), MIB) == RoundUp(ideal)
  {
    CeilByAdding(ideal, MIB);
    RoundUpNext(ideal);
  }

  /** The inputs on which the saturating sum costs the scheduler a MiB that matters. */
  predicate SaturationShows(total: nat, concurrency: nat)
    requires 0 < concurrency
  {
    var target := TargetChunks(concurrency);
    var q := U64_MAX / target;
    total + target - 1 > U64_MAX && total > q * target && q % MIB == 0 && MIN_CHUNK <= q < MAX_CHUNK
  }

  /** The two computations agree on every `u64` size and concurrency except exactly those inputs. */
  lemma ChunkSizesAgree(total: nat, concurrency: nat)
    requires total <= U64_MAX && 0 < concurrency <= U64_MAX
    ensures SchedulerChunkSize(total, concurrency) == PlannerChunkSize(total, concurrency, MIN_CHUNK, MAX_CHUNK)
            <==> !SaturationShows(total, concurrency)
  {
    var target := TargetChunks(concurrency);
    var q := U64_MAX / target;
    QuotientOfFour(U64_MAX, target);
    if total + target - 1 <= U64_MAX {
      CeilByAdding(total, target);
      QuotientOfFour(total + target - 1, target);
      Rounded(DivCeil(total, target));
    } else {
      SaturatedIdeal(total, target);
      Rounded(q);
      Rounded(DivCeil(total, target));
      RoundUpNext(q);
    }
  }

  /** A concurrency this large makes the scheduler pick 4 MiB where the planner picks 5. */
  lemma ChunkSizesDiffer()
    ensures SchedulerChunkSize(U64_MAX, 0xFF_FFFF_FFFF) == 4 * MIB
    ensures PlannerChunkSize(U64_MAX, 0xFF_FFFF_FFFF, MIN_CHUNK, MAX_CHUNK) == 5 * MIB
  {
    assert TargetChunks(0xFF_FFFF_FFFF) == 0x3FF_FFFF_FFFC;
    assert U64_MAX / 0x3FF_FFFF_FFFC == 4 * MIB;
  }

  /** Up to 2^39 chunks at once (automatic concurrency stops at 64) the two always agree. */
  lemma ChunkSizesAgreeInPractice(total: nat, concurrency: nat)
    requires total <= U64_MAX && 0 < concurrency <= 0x80_0000_0000
    ensures SchedulerChunkSize(total, concurrency) == PlannerChunkSize(total, concurrency, MIN_CHUNK, MAX_CHUNK)
  {
    ChunkSizesAgree(total, concurrency);
    LargeQuotient(TargetChunks(concurrency));
  }

  lemma LargeQuotient(target: nat)
    requires 4 <= target <= 0x200_0000_0000
    ensures MAX_CHUNK - 1 <= U64_MAX / target
  {
    QuotientBounds(U64_MAX, target);
    MulMonotone(U64_MAX / target + 1, MAX_CHUNK - 1, target);
  }

  /** The chunk size is the least whole number of MiB that needs at most four waves, within bounds. */
  lemma PlannerChunkSizeIsLeast(size: nat, concurrency: nat)
    requires size <= U64_MAX && 0 < concurrency <= U64_MAX
    ensures var c, target := PlannerChunkSize(size, concurrency, MIN_CHUNK, MAX_CHUNK), TargetChunks(concurrency);
            && c % MIB == 0 && MIN_CHUNK <= c <= MAX_CHUNK
            && (c < MAX_CHUNK ==> DivCeil(size, c) <= target)
            && (MIN_CHUNK < c ==> target < DivCeil(size, c - MIB))
  {
    var c, target := PlannerChunkSize(size, concurrency, MIN_CHUNK, MAX_CHUNK), TargetChunks(concurrency);
    var ideal := DivCeil(size, target);
    DivCeilIsCeil(size, target);
    IdealFits(size, target);
    ClampedIdeal(ideal);
    if c < MAX_CHUNK { CeilAtMost(size, c, target, ideal); }
    if MIN_CHUNK < c { CeilMoreThan(size, c - MIB, target, ideal); }
  }

  lemma ClampedIdeal(ideal: nat)
    requires ideal <= U64_MAX / 4 + 1
    ensures var c := Clamp(SatMul(DivCeil(ideal, MIB), MIB), MIN_CHUNK, MAX_CHUNK);
            && c % MIB == 0 && MIN_CHUNK <= c <= MAX_CHUNK
            && (c < MAX_CHUNK ==> ideal <= c)
            && (MIN_CHUNK < c ==> c - MIB <= ideal - 1)
  {
    Rounded(ideal);
    RoundUpNext(ideal);
    assert RoundUp(ideal) % MIB == 0;
  }

  lemma IdealFits(size: nat, target: nat)
    requires 4 <= target && size <= U64_MAX
    ensures DivCeil(size, target) <= U64_MAX / 4 + 1
  {
    QuotientOfFour(size, target);
  }

  lemma CeilAtMost(size: nat, c: nat, target: nat, ideal: nat)
    requires 0 < c && size <= ideal * target && ideal <= c
    ensures DivCeil(size, c) <= target
  {
    MulMonotone(ideal, c, target);
    DivCeilIsCeil(size, c);
    MulMonotone(target, DivCeil(size, c) - 1, c);
    assert c * target == target * c;
  }

  lemma CeilMoreThan(size: nat, c: nat, target: nat, ideal: nat)
    requires 0 < c <= ideal - 1 && (ideal - 1) * target < size
    ensures target < DivCeil(size, c)
  {
    MulMonotone(c, ideal - 1, target);
    DivCeilIsCeil(size, c);
    MulMonotone(DivCeil(size, c), target, c);
    assert c * target == target * c;
  }

  // ------------------------------------------------------------------ stream memory

  /** How many chunks of this size a stream may hold at once. */
  function BoundedConcurrency(chunk: nat, desired: nat): nat {
    Max(Min(desired, Max(STREAM_BYTES / Max(chunk, 1), 1)), 1)
  }

  /** The planned chunks fit the stream's budget exactly when one chunk does, and no fewer than
      the budget allows are planned. */
  lemma ConcurrencyFitsBudget(chunk: nat, desired: nat)
    ensures var n := BoundedConcurrency(chunk, desired);
            && 1 <= n <= Max(desired, 1)
            && (n * chunk <= STREAM_BYTES <==> chunk <= STREAM_BYTES)
            && (0 < chunk && n < desired ==> STREAM_BYTES < (n + 1) * chunk)
  {
    var n := BoundedConcurrency(chunk, desired);
    if 0 < chunk {
      QuotientBounds(STREAM_BYTES, chunk);
      if chunk <= STREAM_BYTES {
        assert STREAM_BYTES / chunk * chunk > 0 by { QuotientAtLeastOne(STREAM_BYTES, chunk); }
        MulMonotone(n, STREAM_BYTES / chunk, chunk);
      } else {
        MulMonotone(1, n, chunk);
      }
    }
  }

  lemma QuotientAtLeastOne(a: nat, b: nat)
    requires 0 < b <= a
    ensures 1 <= a / b && 0 < a / b * b
  {
    QuotientBounds(a, b);
    if a / b < 1 { MulMonotone(a / b + 1, 1, b); }
  }

  /** The streaming relay also holds a 1 MiB sequential reservation of the same budget. All planned
      chunks fit beside it at once if and only if all desired ones would, or the budget leaves a
      remainder of at least 1 MiB when divided into chunks. One chunk of a parallel read always fits. */
  lemma PlannedChunksBesideSequential(chunk: nat, desired: nat)
    requires 0 < chunk <= STREAM_BYTES
    ensures var n := BoundedConcurrency(chunk, desired);
            && (n * chunk + MIB <= STREAM_BYTES <==>
                Max(desired, 1) * chunk + MIB <= STREAM_BYTES || MIB <= STREAM_BYTES % chunk)
            && (1 < n ==> chunk + MIB <= STREAM_BYTES)
  {
    var q := STREAM_BYTES / chunk;
    QuotientAtLeastOne(STREAM_BYTES, chunk);
    BesideSequential(STREAM_BYTES, chunk, q, STREAM_BYTES % chunk, Max(desired, 1));
    if 1 < Min(Max(desired, 1), q) { MulMonotone(2, q, chunk); }
  }

  lemma BesideSequential(budget: nat, chunk: nat, q: nat, rest: nat, d: nat)
    requires budget == q * chunk + rest && rest < chunk && 1 <= d
    ensures Min(d, q) * chunk + MIB <= budget <==> d * chunk + MIB <= budget || MIB <= rest
  {
    MulMonotone(d, q, chunk);
    MulMonotone(q + 1, d, chunk);
    assert (q + 1) * chunk == q * chunk + chunk;
  }

  /** With adaptive chunks of 8 MiB and room for 8 of them the ninth share is missing. */
  lemma EightChunksCrowdTheBudget()
    ensures BoundedConcurrency(MAX_CHUNK, 64) == 8 && 8 * MAX_CHUNK + MIB > STREAM_BYTES
  {
  }
}
