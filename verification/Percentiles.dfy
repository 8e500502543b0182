/** Latency percentiles: the walk over cumulative bucket counts must name the bucket of the sample
    that sorting would put at the requested rank. */
module Percentiles {
  import opened Collections
  import opened Metrics

  function AtMost(a: nat, b: nat): bool { a <= b }

  // ------------------------------------------------------------------ counting

  function Count(s: seq<nat>, p: nat -> bool): nat {
    if s == [] then 0 else One(p(s[0])) + Count(s[1..], p)
  }

  lemma {:induction false} CountAppend(a: seq<nat>, b: seq<nat>, p: nat -> bool)
    ensures Count(a + b, p) == Count(a, p) + Count(b, p)
  {
    if a == [] {
      assert a + b == b;
    } else {
      assert (a + b)[1..] == a[1..] + b;
      CountAppend(a[1..], b, p);
    }
  }

  lemma {:induction false} CountSplit(s: seq<nat>, p: nat -> bool, q: nat -> bool, r: nat -> bool)
    requires forall x :: x in s ==> (p(x) <==> q(x) || r(x)) && !(q(x) && r(x))
    ensures Count(s, p) == Count(s, q) + Count(s, r)
  {
    if s != [] {
      assert s[0] in s;
      CountSplit(s[1..], p, q, r);
    }
  }

  lemma {:induction false} CountAll(s: seq<nat>, p: nat -> bool)
    ensures Count(s, p) <= |s|
    ensures (forall x :: x in s ==> p(x)) ==> Count(s, p) == |s|
    ensures (forall x :: x in s ==> !p(x)) ==> Count(s, p) == 0
  {
    if s != [] {
      CountAll(s[1..], p);
      assert s[0] in s;
    }
  }

  lemma {:induction false} CountInsert(x: nat, s: seq<nat>, p: nat -> bool)
    ensures Count(Insert(x, s, AtMost), p) == One(p(x)) + Count(s, p)
  {
    if s == [] || x <= s[0] {
      assert ([x] + s)[1..] == s;
    } else {
      CountInsert(x, s[1..], p);
      assert ([s[0]] + Insert(x, s[1..], AtMost))[1..] == Insert(x, s[1..], AtMost);
    }
  }

  lemma {:induction false} CountSorted(s: seq<nat>, p: nat -> bool)
    ensures Count(SortBy(s, AtMost), p) == Count(s, p)
  {
    if s != [] {
      CountSorted(s[1..], p);
      CountInsert(s[0], SortBy(s[1..], AtMost), p);
    }
  }

  // ------------------------------------------------------------------ buckets and cumulative counts

  ghost function InBucket(b: nat): nat -> bool { (x: nat) => BucketOf(x) == b }

  ghost function InBucketsBelow(b: nat): nat -> bool { (x: nat) => BucketOf(x) < b }

  /** `buckets` counts the samples `s`. */
  ghost predicate Counts(buckets: seq<nat>, s: seq<nat>) {
    |buckets| == BUCKETS && forall b :: 0 <= b < BUCKETS ==> buckets[b] == Count(s, InBucket(b))
  }

  lemma {:induction false} Cumulative(buckets: seq<nat>, s: seq<nat>, n: nat)
    requires Counts(buckets, s) && n <= BUCKETS
    ensures Sum(buckets[..n]) == Count(s, InBucketsBelow(n))
  {
    if n == 0 {
      CountAll(s, InBucketsBelow(0));
    } else {
      Cumulative(buckets, s, n - 1);
      SumAppend(buckets[..n - 1], [buckets[n - 1]]);
      assert buckets[..n] == buckets[..n - 1] + [buckets[n - 1]];
      CountSplit(s, InBucketsBelow(n), InBucketsBelow(n - 1), InBucket(n - 1));
    }
  }

  /** Larger samples never fall into smaller buckets. */
  lemma BucketMonotone(a: nat, b: nat)
    requires a <= b <= U64_MAX
    ensures BucketOf(a) <= BucketOf(b)
  {
    BucketBounds(a, 0);
    BucketBounds(b, 0);
  }

  lemma SortedSamples(s: seq<nat>)
    ensures Sorted(SortBy(s, AtMost), AtMost) && |SortBy(s, AtMost)| == |s|
    ensures forall x :: x in SortBy(s, AtMost) ==> x in s
  {
    SortCorrect(s, AtMost);
    forall x | x in SortBy(s, AtMost) ensures x in s {
      assert x in multiset(SortBy(s, AtMost));
    }
  }

  /** Fewer than `r` samples lie in the buckets below `b` exactly when the sample of rank `r` does not. */
  lemma RankAgainst(s: seq<nat>, r: nat, b: nat)
    requires 1 <= r <= |s| && forall x :: x in s ==> x <= U64_MAX
    ensures |SortBy(s, AtMost)| == |s|
    ensures Count(s, InBucketsBelow(b)) < r <==> b <= BucketOf(SortBy(s, AtMost)[r - 1])
  {
    SortedSamples(s);
    var t := SortBy(s, AtMost);
    CountSorted(s, InBucketsBelow(b));
    assert forall i :: 0 <= i < |t| ==> t[i] in t;
    SortedBuckets(t);
    if b <= BucketOf(t[r - 1]) {
      SplitCount(t, r - 1, InBucketsBelow(b));
    } else {
      SplitCount(t, r, InBucketsBelow(b));
    }
  }

  lemma SortedBuckets(t: seq<nat>)
    requires Sorted(t, AtMost) && forall i :: 0 <= i < |t| ==> t[i] <= U64_MAX
    ensures forall i, k :: 0 <= i <= k < |t| ==> BucketOf(t[i]) <= BucketOf(t[k])
  {
    forall i, k | 0 <= i <= k < |t| ensures BucketOf(t[i]) <= BucketOf(t[k]) {
      assert i < k ==> AtMost(t[i], t[k]);
      BucketMonotone(t[i], t[k]);
    }
  }

  lemma SplitCount(t: seq<nat>, n: nat, p: nat -> bool)
    requires n <= |t|
    ensures (forall i :: n <= i < |t| ==> !p(t[i])) ==> Count(t, p) <= n
    ensures (forall i :: 0 <= i < n ==> p(t[i])) ==> n <= Count(t, p)
  {
    assert t == t[..n] + t[n..];
    CountAppend(t[..n], t[n..], p);
    CountAll(t[..n], p);
    CountAll(t[n..], p);
  }

  // ------------------------------------------------------------------ the percentile itself

  function Ceil(x: real): int { -((-x).Floor) }

  /** The rank a quantile asks for; it always names one of the samples. */
  function Rank(samples: nat, quantile: real): (r: nat)
    requires 0 < samples && 0.0 < quantile <= 1.0
    ensures 1 <= r <= samples
    ensures (r - 1) as real < samples as real * quantile <= r as real
  {
    assert samples as real * quantile <= samples as real;
    Max(Ceil(samples as real * quantile), 1)
  }

  /** The sample of rank `r` lies in the bucket where the cumulative counts reach `r`. */
  lemma Crossing(buckets: seq<nat>, s: seq<nat>, r: nat, i: nat)
    requires Counts(buckets, s) && (forall x :: x in s ==> x <= U64_MAX) && 1 <= r <= |s| && i < BUCKETS
    requires Sum(buckets[..i]) < r <= Sum(buckets[..i + 1])
    ensures |SortBy(s, AtMost)| == |s| && BucketOf(SortBy(s, AtMost)[r - 1]) == i
  {
    Cumulative(buckets, s, i);
    Cumulative(buckets, s, i + 1);
    RankAgainst(s, r, i);
    RankAgainst(s, r, i + 1);
  }

  /** All samples are counted by the last bucket. */
  lemma AllCounted(buckets: seq<nat>, s: seq<nat>)
    requires Counts(buckets, s)
    ensures Sum(buckets[..BUCKETS]) == |s|
  {
    Cumulative(buckets, s, BUCKETS);
    CountAll(s, InBucketsBelow(BUCKETS));
  }

  lemma SumNext(buckets: seq<nat>, i: nat)
    requires i < |buckets|
    ensures Sum(buckets[..i + 1]) == Sum(buckets[..i]) + buckets[i]
  {
    SumAppend(buckets[..i], [buckets[i]]);
    assert buckets[..i + 1] == buckets[..i] + [buckets[i]];
  }

  /** The walk over the buckets: its answer is the bound of the bucket that holds the sample of the
      requested rank, for any samples `s` that the buckets count. */
  method Percentile(buckets: seq<nat>, samples: nat, quantile: real, ghost s: seq<nat>) returns (r: Option<nat>)
    requires |buckets| == BUCKETS && 0.0 < quantile <= 1.0
    ensures r.None? <==> samples == 0
    ensures 0 < samples == |s| <= U64_MAX && Counts(buckets, s) && (forall x :: x in s ==> x <= U64_MAX) ==>
              var rank := Rank(samples, quantile);
              && rank <= |SortBy(s, AtMost)|
              && r == Some(BOUNDS[BucketOf(SortBy(s, AtMost)[rank - 1])])
  {
    if samples == 0 { return None; }
    var rank := Rank(samples, quantile);
    ghost var exact := samples == |s| <= U64_MAX && Counts(buckets, s) && forall x :: x in s ==> x <= U64_MAX;
    var cumulative: nat := 0;
    assert buckets[..0] == [];
    for i := 0 to BUCKETS
      invariant cumulative == Min(Sum(buckets[..i]), U64_MAX)
      invariant cumulative < rank
    {
      SumNext(buckets, i);
      cumulative := SatAdd(cumulative, buckets[i]);
      if cumulative >= rank {
        if exact { Crossing(buckets, s, rank, i); }
        return Some(BOUNDS[i]);
      }
    }
    if exact { AllCounted(buckets, s); }
    r := Some(U64_MAX);
  }

  // ------------------------------------------------------------------ percentiles of the window

  /** The latency samples of histogram `h` in the chosen generations, oldest first. */
  ghost function Samples(log: seq<Entry>, p: nat -> bool, h: nat): seq<nat> {
    if log == [] then []
    else
      var last := log[|log| - 1];
      Samples(log[..|log| - 1], p, h) + if p(last.generation) then SampleOf(last.event, h) else []
  }

  ghost function SampleOf(e: Event, h: nat): seq<nat> {
    if e.Latency? && e.histogram == h then [Min(e.millis, U64_MAX)] else []
  }

  lemma DeltaCounts(e: Event, h: nat, b: nat)
    requires b < BUCKETS
    ensures Delta(e, HistogramField(h, b)) == Count(SampleOf(e, h), InBucket(b))
  {
    if e.Latency? {
      SaturatedBucket(e.millis);
      if HistogramField(h, b) == HistogramField(e.histogram, BucketOf(e.millis)) {
        HistogramFieldsDiffer(h, b, e.histogram, BucketOf(e.millis));
      }
    }
  }

  /** Clamping an over-long latency to `u64::MAX` does not move it to another bucket. */
  lemma SaturatedBucket(millis: nat)
    ensures BucketOf(Min(millis, U64_MAX)) == BucketOf(millis)
  {
    BucketBounds(millis, 0);
    BucketBounds(Min(millis, U64_MAX), 0);
  }

  lemma HistogramFieldsDiffer(h: nat, b: nat, g: nat, c: nat)
    requires b < BUCKETS && c < BUCKETS && HistogramField(h, b) == HistogramField(g, c)
    ensures h == g && b == c
  {
  }

  /** The bucket counters of a histogram count its samples, and no event touches another's buckets. */
  lemma {:induction false} LogSumCounts(log: seq<Entry>, p: nat -> bool, h: nat, b: nat)
    requires b < BUCKETS
    ensures LogSum(log, p, HistogramField(h, b)) == Count(Samples(log, p, h), InBucket(b))
  {
    if log != [] {
      var n, last := |log| - 1, log[|log| - 1];
      LogSumCounts(log[..n], p, h, b);
      DeltaCounts(last.event, h, b);
      CountAppend(Samples(log[..n], p, h), if p(last.generation) then SampleOf(last.event, h) else [], InBucket(b));
    }
  }

  lemma {:induction false} SamplesFit(log: seq<Entry>, p: nat -> bool, h: nat)
    ensures forall x :: x in Samples(log, p, h) ==> x <= U64_MAX
  {
    if log != [] { SamplesFit(log[..|log| - 1], p, h); }
  }

  /** The saturating total the view reports as its sample count. */
  method TotalSamples(buckets: seq<nat>) returns (n: nat)
    ensures n == Min(Sum(buckets), U64_MAX)
  {
    n := 0;
    for i := 0 to |buckets|
      invariant n == Min(Sum(buckets[..i]), U64_MAX)
    {
      SumNext(buckets, i);
      n := SatAdd(n, buckets[i]);
    }
    assert buckets[..|buckets|] == buckets;
  }

  /** A percentile of one histogram of the window view: the bucket bound of the sample that sorting
      the latencies recorded in the last 60 generations puts at the requested rank. */
  method WindowPercentile(m: TransferMetrics, generation: nat, h: nat, quantile: real) returns (r: Option<nat>)
    requires m.Valid() && Latest(m.log) <= generation && h < 4 && 0.0 < quantile <= 1.0
    ensures var s := Samples(m.log, Recent(generation), h);
            |s| <= U64_MAX ==>
              && (r.None? <==> s == [])
              && (s != [] ==>
                    var rank := Rank(|s|, quantile);
                    && rank <= |SortBy(s, AtMost)|
                    && r == Some(BOUNDS[BucketOf(SortBy(s, AtMost)[rank - 1])]))
  {
    var v := m.SumWindow(generation);
    var buckets := v[HistogramField(h, 0)..HistogramField(h, BUCKETS)];
    var samples := TotalSamples(buckets);
    ghost var p := Recent(generation);
    ghost var s := Samples(m.log, p, h);
    if |s| <= U64_MAX { WindowCounts(v, buckets, m.log, p, h); }
    r := Percentile(buckets, samples, quantile, s);
  }

  lemma WindowCounts(v: Fields, buckets: seq<nat>, log: seq<Entry>, p: nat -> bool, h: nat)
    requires h < 4 && Sums(v, log, p) && buckets == v[HistogramField(h, 0)..HistogramField(h, BUCKETS)]
    requires |Samples(log, p, h)| <= U64_MAX
    ensures Counts(buckets, Samples(log, p, h)) && Sum(buckets) == |Samples(log, p, h)|
    ensures forall x :: x in Samples(log, p, h) ==> x <= U64_MAX
  {
    var s := Samples(log, p, h);
    forall b | 0 <= b < BUCKETS ensures buckets[b] == Count(s, InBucket(b)) {
      WindowCount(v, log, p, h, b);
      assert buckets[b] == v[HistogramField(h, b)];
    }
    AllCounted(buckets, s);
    assert buckets[..BUCKETS] == buckets;
    SamplesFit(log, p, h);
  }

  lemma WindowCount(v: Fields, log: seq<Entry>, p: nat -> bool, h: nat, b: nat)
    requires |v| == WIDTH && h < 4 && b < BUCKETS && |Samples(log, p, h)| <= U64_MAX
    requires forall f :: 0 <= f < WIDTH ==> v[f] == Min(LogSum(log, p, f), U64_MAX)
    ensures HistogramField(h, b) < WIDTH && v[HistogramField(h, b)] == Count(Samples(log, p, h), InBucket(b))
  {
    LogSumCounts(log, p, h, b);
    CountAll(Samples(log, p, h), InBucket(b));
  }
}
