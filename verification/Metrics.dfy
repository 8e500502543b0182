/** Transfer metrics: a ring of 60 slots that must agree with a plain log of the last 60 generations,
    and histogram percentiles that must agree with the sorted samples. */
module Metrics {
  import opened Collections

  const WINDOW: nat := 60
  const BUCKETS: nat := 15
  const COUNTERS: nat := 12
  const WIDTH: nat := COUNTERS + 4 * BUCKETS // all counters, then the buckets of four histograms
  const MAX_GENERATION: nat := U64_MAX / 5   // seconds since start, five to a generation

  const BOUNDS: seq<nat> :=
    [1, 5, 10, 25, 50, 100, 250, 500, 1_000, 2_500, 5_000, 10_000, 30_000, 60_000, U64_MAX]

  const GET_REQUESTS := 0
  const GET_HITS := 1
  const GET_MISSES := 2
  const HEAD_REQUESTS := 3
  const HEAD_HITS := 4
  const BYTES_SERVED := 5
  const ADMISSIONS_STARTED := 6
  const ADMISSIONS_SUCCEEDED := 7
  const ADMISSIONS_FAILED := 8
  const BYTES_ADMITTED := 9
  const UPSTREAM_REQUESTS := 10
  const UPSTREAM_BYTES := 11

  datatype Event =
    | BlobGet(hit: bool)
    | BlobHead(hit: bool)
    | CacheServed(bytes: nat)
    | AdmissionStarted
    | AdmissionSucceeded(bytes: nat)
    | AdmissionFailed
    | UpstreamRequest
    | UpstreamRead(bytes: nat)
    | Latency(histogram: nat, millis: nat)

  /** The bucket a sample is counted in. */
  function BucketOf(millis: nat): (i: nat)
    ensures i < BUCKETS
  {
    FirstBucket(millis, 0)
  }

  function FirstBucket(millis: nat, from: nat): (i: nat)
    requires from < BUCKETS
    ensures i < BUCKETS
    decreases BUCKETS - from
  {
    if millis <= BOUNDS[from] || from == BUCKETS - 1 then from else FirstBucket(millis, from + 1)
  }

  /** A sample is counted in the first bucket whose bound is not below it. */
  lemma {:induction false} BucketBounds(millis: nat, from: nat)
    requires from < BUCKETS
    ensures var i := FirstBucket(millis, from);
            && from <= i && (i == BUCKETS - 1 || millis <= BOUNDS[i])
            && forall k :: from <= k < i ==> BOUNDS[k] < millis
    decreases BUCKETS - from
  {
    if !(millis <= BOUNDS[from] || from == BUCKETS - 1) { BucketBounds(millis, from + 1); }
  }

  function HistogramField(h: nat, bucket: nat): nat { COUNTERS + BUCKETS * h + bucket }

  function One(b: bool): nat { if b then 1 else 0 }

  /** What one event adds to one field. */
  function Delta(e: Event, f: nat): nat {
    match e
    case BlobGet(hit) => One(f == GET_REQUESTS || f == if hit then GET_HITS else GET_MISSES)
    case BlobHead(hit) => One(f == HEAD_REQUESTS || (hit && f == HEAD_HITS))
    case CacheServed(bytes) => if f == BYTES_SERVED then bytes else 0
    case AdmissionStarted => One(f == ADMISSIONS_STARTED)
    case AdmissionSucceeded(bytes) =>
      if f == ADMISSIONS_SUCCEEDED then 1 else if f == BYTES_ADMITTED then bytes else 0
    case AdmissionFailed => One(f == ADMISSIONS_FAILED)
    case UpstreamRequest => One(f == UPSTREAM_REQUESTS)
    case UpstreamRead(bytes) => if f == UPSTREAM_BYTES then bytes else 0
    case Latency(h, millis) => One(f == HistogramField(h, BucketOf(millis)))
  }

  type Fields = seq<nat>

  function Zero(): (r: Fields)
    ensures |r| == WIDTH && forall f :: 0 <= f < WIDTH ==> r[f] == 0
  {
    seq(WIDTH, f => 0)
  }

  /** Saturating update of every field. */
  function Added(v: Fields, e: Event): (r: Fields)
    requires |v| == WIDTH
    ensures |r| == WIDTH && forall f :: 0 <= f < WIDTH ==> r[f] == Min(v[f] + Delta(e, f), U64_MAX)
  {
    seq(WIDTH, f requires 0 <= f < WIDTH => SatAdd(v[f], Delta(e, f)))
  }

  function AddedAll(v: Fields, w: Fields): (r: Fields)
    requires |v| == |w| == WIDTH
    ensures |r| == WIDTH && forall f :: 0 <= f < WIDTH ==> r[f] == Min(v[f] + w[f], U64_MAX)
  {
    seq(WIDTH, f requires 0 <= f < WIDTH => SatAdd(v[f], w[f]))
  }

  // ------------------------------------------------------------------ the event log

  datatype Entry = Entry(generation: nat, event: Event)

  /** What the logged events of chosen generations add to a field, without saturation. */
  ghost function LogSum(log: seq<Entry>, p: nat -> bool, f: nat): nat {
    if log == [] then 0
    else
      var last := log[|log| - 1];
      LogSum(log[..|log| - 1], p, f) + (if p(last.generation) then Delta(last.event, f) else 0)
  }

  ghost function Only(g: nat): nat -> bool { n => n == g }

  /** Generations of a window whose slot index is below `k`. */
  ghost function Slots(lo: int, hi: nat, k: nat): nat -> bool { n => lo <= n <= hi && n % WINDOW < k }

  /** The last 60 generations. */
  ghost function Recent(generation: nat): nat -> bool { Between(generation - WINDOW + 1, generation) }

  ghost function Between(lo: int, hi: nat): nat -> bool { n => lo <= n <= hi }

  /** Sums add up over disjoint choices that cover a third, on the generations that occur. */
  lemma {:induction false} LogSumSplit(log: seq<Entry>, p: nat -> bool, q: nat -> bool, r: nat -> bool, f: nat)
    requires forall i :: 0 <= i < |log| ==>
               var g := log[i].generation; (p(g) <==> q(g) || r(g)) && !(q(g) && r(g))
    ensures LogSum(log, p, f) == LogSum(log, q, f) + LogSum(log, r, f)
  {
    if log != [] {
      var g := log[|log| - 1].generation;
      assert (p(g) <==> q(g) || r(g)) && !(q(g) && r(g));
      LogSumSplit(log[..|log| - 1], p, q, r, f);
    }
  }

  lemma LogSumNext(log: seq<Entry>, e: Entry, p: nat -> bool, f: nat)
    ensures LogSum(log + [e], p, f) == LogSum(log, p, f) + (if p(e.generation) then Delta(e.event, f) else 0)
  {
    assert (log + [e])[..|log|] == log;
  }

  lemma {:induction false} LogSumNone(log: seq<Entry>, p: nat -> bool, f: nat)
    requires forall i :: 0 <= i < |log| ==> !p(log[i].generation)
    ensures LogSum(log, p, f) == 0
  {
    if log != [] {
      assert !p(log[|log| - 1].generation);
      LogSumNone(log[..|log| - 1], p, f);
    }
  }

  /** A plain tally over the logged events of chosen generations. */
  ghost function Tally(log: seq<Entry>, p: nat -> bool, worth: Event -> nat): nat {
    if log == [] then 0
    else
      var last := log[|log| - 1];
      Tally(log[..|log| - 1], p, worth) + (if p(last.generation) then worth(last.event) else 0)
  }

  lemma {:induction false} FieldIsTally(log: seq<Entry>, p: nat -> bool, f: nat, worth: Event -> nat)
    requires forall e :: Delta(e, f) == worth(e)
    ensures LogSum(log, p, f) == Tally(log, p, worth)
  {
    if log != [] { FieldIsTally(log[..|log| - 1], p, f, worth); }
  }

  /** How many events of chosen generations satisfy a condition, and how many bytes they carry. */
  ghost function Counted(log: seq<Entry>, p: nat -> bool, q: Event -> bool): nat {
    Min(Tally(log, p, (e: Event) => One(q(e))), U64_MAX)
  }

  ghost function Carried(log: seq<Entry>, p: nat -> bool, q: Event -> bool, bytes: Event -> nat): nat {
    Min(Tally(log, p, (e: Event) => if q(e) then bytes(e) else 0), U64_MAX)
  }

  lemma FieldCounts(v: Fields, log: seq<Entry>, p: nat -> bool, f: nat, q: Event -> bool)
    requires f < |v| && v[f] == Min(LogSum(log, p, f), U64_MAX) && forall e :: Delta(e, f) == One(q(e))
    ensures v[f] == Counted(log, p, q)
  {
    FieldIsTally(log, p, f, (e: Event) => One(q(e)));
  }

  lemma FieldCarries(v: Fields, log: seq<Entry>, p: nat -> bool, f: nat, q: Event -> bool, bytes: Event -> nat)
    requires f < |v| && v[f] == Min(LogSum(log, p, f), U64_MAX) && forall e :: Delta(e, f) == if q(e) then bytes(e) else 0
    ensures v[f] == Carried(log, p, q, bytes)
  {
    FieldIsTally(log, p, f, (e: Event) => if q(e) then bytes(e) else 0);
  }

  /** Every field is the sum over the log of the chosen generations. */
  ghost predicate Sums(v: Fields, log: seq<Entry>, p: nat -> bool) {
    |v| == WIDTH && forall f :: 0 <= f < WIDTH ==> v[f] == Min(LogSum(log, p, f), U64_MAX)
  }

  function Bytes(e: Event): nat { if e.CacheServed? || e.AdmissionSucceeded? || e.UpstreamRead? then e.bytes else 0 }

  /** What the request and cache counters report. */
  ghost predicate RequestsReported(v: Fields, log: seq<Entry>, p: nat -> bool)
    requires |v| == WIDTH
  {
    && v[GET_REQUESTS] == Counted(log, p, (e: Event) => e.BlobGet?)
    && v[GET_HITS] == Counted(log, p, (e: Event) => e == BlobGet(true))
    && v[GET_MISSES] == Counted(log, p, (e: Event) => e == BlobGet(false))
    && v[HEAD_REQUESTS] == Counted(log, p, (e: Event) => e.BlobHead?)
    && v[HEAD_HITS] == Counted(log, p, (e: Event) => e == BlobHead(true))
    && v[BYTES_SERVED] == Carried(log, p, (e: Event) => e.CacheServed?, Bytes)
  }

  /** What the admission and upstream counters report. */
  ghost predicate TransfersReported(v: Fields, log: seq<Entry>, p: nat -> bool)
    requires |v| == WIDTH
  {
    && v[ADMISSIONS_STARTED] == Counted(log, p, (e: Event) => e.AdmissionStarted?)
    && v[ADMISSIONS_SUCCEEDED] == Counted(log, p, (e: Event) => e.AdmissionSucceeded?)
    && v[ADMISSIONS_FAILED] == Counted(log, p, (e: Event) => e.AdmissionFailed?)
    && v[BYTES_ADMITTED] == Carried(log, p, (e: Event) => e.AdmissionSucceeded?, Bytes)
    && v[UPSTREAM_REQUESTS] == Counted(log, p, (e: Event) => e.UpstreamRequest?)
    && v[UPSTREAM_BYTES] == Carried(log, p, (e: Event) => e.UpstreamRead?, Bytes)
  }

  /** The bucket of a sample: above the bound before it, and not above its own unless it is the last. */
  predicate FallsIn(millis: nat, b: nat)
    requires b < BUCKETS
  {
    (b == 0 || BOUNDS[b - 1] < millis) && (b == BUCKETS - 1 || millis <= BOUNDS[b])
  }

  /** What a bucket of a latency histogram reports. */
  ghost predicate LatencyReported(v: Fields, log: seq<Entry>, p: nat -> bool, h: nat, b: nat)
    requires |v| == WIDTH && h < 4 && b < BUCKETS
  {
    v[HistogramField(h, b)] == Counted(log, p, (e: Event) => e.Latency? && e.histogram == h && FallsIn(e.millis, b))
  }

  /** Each counter counts its own events, or adds up the bytes they carry, and nothing else. */
  lemma CountersReport(v: Fields, log: seq<Entry>, p: nat -> bool)
    requires Sums(v, log, p)
    ensures RequestsReported(v, log, p) && TransfersReported(v, log, p)
  {
    RequestCountersReport(v, log, p);
    TransferCountersReport(v, log, p);
  }

  lemma RequestCountersReport(v: Fields, log: seq<Entry>, p: nat -> bool)
    requires Sums(v, log, p)
    ensures RequestsReported(v, log, p)
  {
    FieldCounts(v, log, p, GET_REQUESTS, (e: Event) => e.BlobGet?);
    FieldCounts(v, log, p, GET_HITS, (e: Event) => e == BlobGet(true));
    FieldCounts(v, log, p, GET_MISSES, (e: Event) => e == BlobGet(false));
    FieldCounts(v, log, p, HEAD_REQUESTS, (e: Event) => e.BlobHead?);
    FieldCounts(v, log, p, HEAD_HITS, (e: Event) => e == BlobHead(true));
    FieldCarries(v, log, p, BYTES_SERVED, (e: Event) => e.CacheServed?, Bytes);
  }

  lemma TransferCountersReport(v: Fields, log: seq<Entry>, p: nat -> bool)
    requires Sums(v, log, p)
    ensures TransfersReported(v, log, p)
  {
    FieldCounts(v, log, p, ADMISSIONS_STARTED, (e: Event) => e.AdmissionStarted?);
    FieldCounts(v, log, p, ADMISSIONS_SUCCEEDED, (e: Event) => e.AdmissionSucceeded?);
    FieldCounts(v, log, p, ADMISSIONS_FAILED, (e: Event) => e.AdmissionFailed?);
    FieldCarries(v, log, p, BYTES_ADMITTED, (e: Event) => e.AdmissionSucceeded?, Bytes);
    FieldCounts(v, log, p, UPSTREAM_REQUESTS, (e: Event) => e.UpstreamRequest?);
    FieldCarries(v, log, p, UPSTREAM_BYTES, (e: Event) => e.UpstreamRead?, Bytes);
  }

  lemma BoundsIncrease(i: nat, k: nat)
    requires i < k < BUCKETS
    ensures BOUNDS[i] < BOUNDS[k]
  {
  }

  /** Bounds increase, so a sample is in exactly one bucket. */
  lemma BucketExactly(millis: nat, b: nat)
    requires b < BUCKETS
    ensures BucketOf(millis) == b <==> FallsIn(millis, b)
  {
    BucketBounds(millis, 0);
    var i := BucketOf(millis);
    if i < b - 1 { BoundsIncrease(i, b - 1); }
  }

  lemma BucketDelta(e: Event, h: nat, b: nat)
    requires b < BUCKETS
    ensures Delta(e, HistogramField(h, b)) == One(e.Latency? && e.histogram == h && FallsIn(e.millis, b))
  {
    if e.Latency? {
      BucketExactly(e.millis, b);
      assert HistogramField(e.histogram, BucketOf(e.millis)) == HistogramField(h, b) <==> e.histogram == h && BucketOf(e.millis) == b;
    }
  }

  /** A bucket counts exactly the samples of its histogram within its bounds. */
  lemma BucketReports(v: Fields, log: seq<Entry>, p: nat -> bool, h: nat, b: nat)
    requires Sums(v, log, p) && h < 4 && b < BUCKETS
    ensures LatencyReported(v, log, p, h, b)
  {
    var q := (e: Event) => e.Latency? && e.histogram == h && FallsIn(e.millis, b);
    forall e ensures Delta(e, HistogramField(h, b)) == One(q(e)) { BucketDelta(e, h, b); }
    FieldCounts(v, log, p, HistogramField(h, b), q);
  }

  /** Over any generations, every GET was a hit or a miss and no more HEADs hit than came. */
  lemma {:induction false} RequestsBalance(log: seq<Entry>, p: nat -> bool)
    ensures LogSum(log, p, GET_REQUESTS) == LogSum(log, p, GET_HITS) + LogSum(log, p, GET_MISSES)
    ensures LogSum(log, p, HEAD_HITS) <= LogSum(log, p, HEAD_REQUESTS)
  {
    if log != [] { RequestsBalance(log[..|log| - 1], p); }
  }

  function Latest(log: seq<Entry>): nat { if log == [] then 0 else log[|log| - 1].generation }

  datatype Slot = Slot(marker: nat, fields: Fields)

  /** A slot holds the sums of one generation: the latest that used it, if any did. */
  ghost predicate SlotExact(s: Slot, i: nat, log: seq<Entry>) {
    s.marker % 2 == 0 && |s.fields| == WIDTH && FieldsExact(s.fields, s.marker / 2, i, log)
  }

  /** No logged generation of slot `i` is later than `g`. */
  ghost predicate SlotLatest(g: nat, i: nat, log: seq<Entry>) {
    && g <= Latest(log)
    && (forall k :: 0 <= k < |log| && log[k].generation % WINDOW == i ==> log[k].generation <= g && g % WINDOW == i)
  }

  ghost predicate FieldsExact(v: Fields, g: nat, i: nat, log: seq<Entry>)
    requires |v| == WIDTH
  {
    && SlotLatest(g, i, log)
    && (g % WINDOW == i ==> forall f :: 0 <= f < WIDTH ==> v[f] == Min(LogSum(log, Only(g), f), U64_MAX))
    && (g % WINDOW != i ==> v == Zero())
  }

  lemma SlotInWindow(s: Slot, i: nat, log: seq<Entry>, lo: nat, hi: nat, f: nat)
    requires lo == SatSub(hi, WINDOW - 1) && i < WINDOW
    requires lo <= s.marker / 2 <= hi && s.marker / 2 % WINDOW == i
    ensures LogSum(log, Slots(lo, hi, i + 1), f) == LogSum(log, Slots(lo, hi, i), f) + LogSum(log, Only(s.marker / 2), f)
  {
    var g := s.marker / 2;
    forall k | 0 <= k < |log|
      ensures var n := log[k].generation;
              (Slots(lo, hi, i + 1)(n) <==> Slots(lo, hi, i)(n) || Only(g)(n)) && !(Slots(lo, hi, i)(n) && Only(g)(n))
    {
      SameSlotSameGeneration(log[k].generation, g, hi);
    }
    LogSumSplit(log, Slots(lo, hi, i + 1), Slots(lo, hi, i), Only(g), f);
  }

  lemma SlotOutOfWindow(s: Slot, i: nat, log: seq<Entry>, lo: nat, hi: nat, f: nat)
    requires SlotExact(s, i, log) && i < WINDOW
    requires forall k :: 0 <= k < |log| ==> log[k].generation <= hi
    requires !(lo <= s.marker / 2 <= hi && s.marker / 2 % WINDOW == i)
    ensures LogSum(log, Slots(lo, hi, i + 1), f) == LogSum(log, Slots(lo, hi, i), f)
  {
    var none: nat -> bool := n => false;
    LogSumNone(log, none, f);
    forall k | 0 <= k < |log|
      ensures var n := log[k].generation; Slots(lo, hi, i + 1)(n) <==> Slots(lo, hi, i)(n)
    {
      assert log[k].generation % WINDOW == i ==> log[k].generation <= s.marker / 2;
    }
    LogSumSplit(log, Slots(lo, hi, i + 1), Slots(lo, hi, i), none, f);
  }

  /** What a window snapshot takes from slot `i`. */
  lemma SlotShare(s: Slot, i: nat, log: seq<Entry>, hi: nat, f: nat)
    requires SlotExact(s, i, log) && i < WINDOW && f < WIDTH
    requires forall k :: 0 <= k < |log| ==> log[k].generation <= hi
    ensures var lo, g := SatSub(hi, WINDOW - 1), s.marker / 2;
            Min(LogSum(log, Slots(lo, hi, i + 1), f), U64_MAX) ==
            SatAdd(Min(LogSum(log, Slots(lo, hi, i), f), U64_MAX), if lo <= g <= hi then s.fields[f] else 0)
  {
    var lo, g := SatSub(hi, WINDOW - 1), s.marker / 2;
    if lo <= g <= hi && g % WINDOW == i {
      SlotInWindow(s, i, log, lo, hi, f);
    } else {
      SlotOutOfWindow(s, i, log, lo, hi, f);
    }
  }

  /** Two generations of one window in the same slot are the same. */
  lemma SameSlotSameGeneration(a: nat, b: nat, hi: nat)
    requires SatSub(hi, WINDOW - 1) <= b <= hi
    ensures SatSub(hi, WINDOW - 1) <= a <= hi && a % WINDOW == b % WINDOW ==> a == b
  {
    assert a == WINDOW * (a / WINDOW) + a % WINDOW && b == WINDOW * (b / WINDOW) + b % WINDOW;
  }

  ghost predicate SlotsExact(window: seq<Slot>, log: seq<Entry>) {
    |window| == WINDOW && forall i :: 0 <= i < WINDOW ==> SlotExact(window[i], i, log)
  }

  ghost predicate LifetimeExact(v: Fields, log: seq<Entry>) {
    |v| == WIDTH && forall f :: 0 <= f < WIDTH ==> v[f] == Min(LogSum(log, Between(0, MAX_GENERATION), f), U64_MAX)
  }

  ghost predicate Ordered(log: seq<Entry>) {
    forall i, k :: 0 <= i <= k < |log| ==> log[i].generation <= log[k].generation <= MAX_GENERATION
  }

  lemma OrderedNext(log: seq<Entry>, e: Entry)
    requires Ordered(log) && Latest(log) <= e.generation <= MAX_GENERATION
    ensures Ordered(log + [e]) && forall k :: 0 <= k < |log| ==> log[k].generation <= e.generation
  {
  }

  class TransferMetrics {
    var window: array<Slot>
    var lifetime: Fields
    ghost var log: seq<Entry>

    /** Every slot, and the lifetime totals, agree with the log, whose generations do not decrease. */
    ghost predicate Valid()
      reads this, window
    {
      && window.Length == WINDOW && |lifetime| == WIDTH
      && SlotsExact(window[..], log)
      && LifetimeExact(lifetime, log)
      && Ordered(log)
    }

    constructor ()
      ensures Valid() && log == [] && fresh(window)
    {
      window := new Slot[WINDOW](_ => Slot(0, Zero()));
      lifetime := Zero();
      log := [];
    }

    /** Records an event: into the lifetime totals, and into the slot of its generation, which is reset
        first if it still holds an older one. */
    method Record(generation: nat, e: Event)
      requires Valid() && generation <= MAX_GENERATION
      requires Latest(log) <= generation
      modifies this, window
      ensures Valid() && window == old(window) && log == old(log) + [Entry(generation, e)]
    {
      lifetime := Added(lifetime, e);
      var i := generation % WINDOW;
      var stable := SatMul(generation, 2);
      var slot := window[i];
      if slot.marker != stable { slot := Slot(stable, Zero()); }
      window[i] := slot.(fields := Added(slot.fields, e));
      assert window[i] == NextSlot(old(window[..])[i], generation, e);
      assert window[..] == old(window[..])[i := window[i]];
      OrderedNext(log, Entry(generation, e));
      log := log + [Entry(generation, e)];
      RecordedWindow(old(window[..]), window[..], old(log), generation, e);
      RecordedLifetime(old(lifetime), old(log), Entry(generation, e));
    }

    /** Every field is the saturated sum over the events of the last 60 generations. */
    method SumWindow(generation: nat) returns (v: Fields)
      requires Valid() && Latest(log) <= generation
      ensures Sums(v, log, Recent(generation))
    {
      v := Zero();
      var oldest := SatSub(generation, WINDOW - 1);
      forall f | 0 <= f < WIDTH ensures LogSum(log, Slots(oldest, generation, 0), f) == 0 {
        LogSumNone(log, Slots(oldest, generation, 0), f);
      }
      for i := 0 to WINDOW
        invariant |v| == WIDTH && forall f :: 0 <= f < WIDTH ==> v[f] == Min(LogSum(log, Slots(oldest, generation, i), f), U64_MAX)
      {
        var s := window[i];
        forall f | 0 <= f < WIDTH
          ensures Min(LogSum(log, Slots(oldest, generation, i + 1), f), U64_MAX) ==
                  SatAdd(v[f], if oldest <= s.marker / 2 <= generation then s.fields[f] else 0)
        {
          assert SlotExact(window[..][i], i, log);
          SlotShare(s, i, log, generation, f);
        }
        if s.marker % 2 == 0 && oldest <= s.marker / 2 <= generation { v := AddedAll(v, s.fields); }
      }
      forall f | 0 <= f < WIDTH
        ensures LogSum(log, Slots(oldest, generation, WINDOW), f) == LogSum(log, Recent(generation), f)
      {
        WholeWindow(log, generation, f);
      }
    }

    /** The window view, read by column: every counter counts its own events of the last 60 generations, or adds up
        their bytes, and every bucket counts its own samples. */
    method SnapshotWindow(generation: nat) returns (v: Fields)
      requires Valid() && Latest(log) <= generation
      ensures Sums(v, log, Recent(generation))
      ensures RequestsReported(v, log, Recent(generation)) && TransfersReported(v, log, Recent(generation))
      ensures forall h, b :: 0 <= h < 4 && 0 <= b < BUCKETS ==> LatencyReported(v, log, Recent(generation), h, b)
      ensures v[GET_REQUESTS] == SatAdd(v[GET_HITS], v[GET_MISSES]) && v[HEAD_HITS] <= v[HEAD_REQUESTS]
    {
      v := SumWindow(generation);
      RequestsBalance(log, Recent(generation));
      CountersReport(v, log, Recent(generation));
      forall h, b | 0 <= h < 4 && 0 <= b < BUCKETS
        ensures LatencyReported(v, log, Recent(generation), h, b)
      {
        BucketReports(v, log, Recent(generation), h, b);
      }
    }
  }

  lemma WholeWindow(log: seq<Entry>, hi: nat, f: nat)
    ensures LogSum(log, Slots(SatSub(hi, WINDOW - 1), hi, WINDOW), f) == LogSum(log, Between(hi - WINDOW + 1, hi), f)
  {
    var none: nat -> bool := n => false;
    LogSumNone(log, none, f);
    LogSumSplit(log, Slots(SatSub(hi, WINDOW - 1), hi, WINDOW), Between(hi - WINDOW + 1, hi), none, f);
  }

  lemma RecordedLifetime(v: Fields, log: seq<Entry>, e: Entry)
    requires LifetimeExact(v, log) && e.generation <= MAX_GENERATION
    ensures LifetimeExact(Added(v, e.event), log + [e])
  {
    forall f | 0 <= f < WIDTH
      ensures Added(v, e.event)[f] == Min(LogSum(log + [e], Between(0, MAX_GENERATION), f), U64_MAX)
    {
      LogSumNext(log, e, Between(0, MAX_GENERATION), f);
    }
  }

  lemma RecordedWindow(before: seq<Slot>, after: seq<Slot>, log: seq<Entry>, generation: nat, e: Event)
    requires SlotsExact(before, log) && generation <= MAX_GENERATION
    requires forall k :: 0 <= k < |log| ==> log[k].generation <= generation
    requires var i := generation % WINDOW; after == before[i := NextSlot(before[i], generation, e)]
    ensures SlotsExact(after, log + [Entry(generation, e)])
  {
    var i := generation % WINDOW;
    RecordedSlot(before[i], after[i], i, log, generation, e);
    forall k | 0 <= k < WINDOW && k != i ensures SlotExact(after[k], k, log + [Entry(generation, e)]) {
      OtherSlot(before[k], k, log, Entry(generation, e));
    }
  }

  lemma LatestNext(i: nat, log: seq<Entry>, generation: nat, e: Event)
    requires i == generation % WINDOW && forall k :: 0 <= k < |log| ==> log[k].generation <= generation
    ensures SlotLatest(generation, i, log + [Entry(generation, e)])
  {
  }

  /** A slot after an event: reset first if it holds another generation. */
  function NextSlot(s: Slot, generation: nat, e: Event): Slot
    requires |s.fields| == WIDTH
  {
    Slot(2 * generation, Added(if s.marker == 2 * generation then s.fields else Zero(), e))
  }

  lemma RecordedSlot(before: Slot, after: Slot, i: nat, log: seq<Entry>, generation: nat, e: Event)
    requires SlotExact(before, i, log) && i == generation % WINDOW && generation <= MAX_GENERATION
    requires forall k :: 0 <= k < |log| ==> log[k].generation <= generation
    requires after == NextSlot(before, generation, e)
    ensures SlotExact(after, i, log + [Entry(generation, e)])
  {
    LatestNext(i, log, generation, e);
    RecordedFields(before, i, log, generation, e);
    StableSlot(after.fields, generation, i, log + [Entry(generation, e)]);
  }

  lemma StableSlot(v: Fields, g: nat, i: nat, log: seq<Entry>)
    requires |v| == WIDTH && FieldsExact(v, g, i, log)
    ensures SlotExact(Slot(2 * g, v), i, log)
  {
    assert 2 * g / 2 == g;
  }

  lemma RecordedFields(before: Slot, i: nat, log: seq<Entry>, generation: nat, e: Event)
    requires SlotExact(before, i, log) && i == generation % WINDOW
    requires forall k :: 0 <= k < |log| ==> log[k].generation <= generation
    ensures var v := NextSlot(before, generation, e).fields;
            |v| == WIDTH && forall f :: 0 <= f < WIDTH ==>
              v[f] == Min(LogSum(log + [Entry(generation, e)], Only(generation), f), U64_MAX)
  {
    var v := NextSlot(before, generation, e).fields;
    forall f | 0 <= f < WIDTH
      ensures v[f] == Min(LogSum(log + [Entry(generation, e)], Only(generation), f), U64_MAX)
    {
      RecordedField(before, i, log, generation, e, f);
    }
  }

  lemma RecordedField(before: Slot, i: nat, log: seq<Entry>, generation: nat, e: Event, f: nat)
    requires SlotExact(before, i, log) && i == generation % WINDOW && f < WIDTH
    requires forall k :: 0 <= k < |log| ==> log[k].generation <= generation
    ensures Min((if before.marker == 2 * generation then before.fields[f] else 0) + Delta(e, f), U64_MAX) ==
            Min(LogSum(log + [Entry(generation, e)], Only(generation), f), U64_MAX)
  {
    LogSumNext(log, Entry(generation, e), Only(generation), f);
    if before.marker != 2 * generation {
      NewGeneration(before, i, log, generation, f);
    }
  }

  /** A slot that holds another generation has seen nothing of this one. */
  lemma NewGeneration(s: Slot, i: nat, log: seq<Entry>, generation: nat, f: nat)
    requires SlotExact(s, i, log) && i == generation % WINDOW && s.marker != 2 * generation
    requires forall k :: 0 <= k < |log| ==> log[k].generation <= generation
    ensures LogSum(log, Only(generation), f) == 0
  {
    assert s.marker / 2 <= Latest(log) <= generation;
    forall k | 0 <= k < |log| ensures !Only(generation)(log[k].generation) {
      assert log[k].generation % WINDOW == i ==> log[k].generation <= s.marker / 2;
    }
    LogSumNone(log, Only(generation), f);
  }

  lemma OtherSlot(s: Slot, k: nat, log: seq<Entry>, e: Entry)
    requires SlotExact(s, k, log) && e.generation % WINDOW != k && Latest(log) <= e.generation
    ensures SlotExact(s, k, log + [e])
  {
    var g := s.marker / 2;
    if g % WINDOW == k {
      forall f | 0 <= f < WIDTH ensures s.fields[f] == Min(LogSum(log + [e], Only(g), f), U64_MAX) {
        LogSumNext(log, e, Only(g), f);
      }
    }
  }
}
