/** A node's recent speeds: a bounded queue that must agree with the plain log of observations. */
module SpeedWindows {
  import opened Collections

  const SPEED_WINDOW: nat := 60 // seconds
  const MAX_SAMPLES: nat := 8
  const TRIM_FROM: nat := 5

  datatype Sample = Sample(at: nat, bps: real)

  predicate Fresh(s: Sample, now: nat) { now - s.at <= SPEED_WINDOW }

  /** Observation `i` still counts at `now`: among the last eight, and no older than the window. */
  ghost predicate Counts(log: seq<Sample>, now: nat, i: nat)
    requires i < |log|
  {
    |log| - MAX_SAMPLES <= i && Fresh(log[i], now)
  }

  /** `window` is exactly the observations that count, oldest first. */
  ghost predicate Exact(window: seq<Sample>, log: seq<Sample>, now: nat) {
    && |window| <= |log| && window == log[|log| - |window|..]
    && forall i :: 0 <= i < |log| ==> (Counts(log, now, i) <==> |log| - |window| <= i)
  }

  /** The same, before expired observations at the front have been dropped. */
  ghost predicate Unpruned(window: seq<Sample>, log: seq<Sample>, now: nat) {
    && |window| <= |log| && window == log[|log| - |window|..]
    && forall i :: 0 <= i < |log| - |window| ==> !Counts(log, now, i)
  }

  ghost predicate Chronological(log: seq<Sample>, now: nat) {
    && (forall i, k :: 0 <= i <= k < |log| ==> log[i].at <= log[k].at)
    && (forall i :: 0 <= i < |log| ==> log[i].at <= now)
  }

  /** Drops expired observations from the front. */
  method Prune(window: seq<Sample>, now: nat, ghost log: seq<Sample>) returns (r: seq<Sample>)
    requires Unpruned(window, log, now) && Chronological(log, now)
    ensures Unpruned(r, log, now) && |r| <= |window|
    ensures forall k :: 0 <= k < |r| ==> Fresh(r[k], now)
  {
    r := window;
    while r != [] && !Fresh(r[0], now)
      invariant Unpruned(r, log, now) && |r| <= |window|
    {
      ghost var c := |log| - |r|;
      assert r[0] == log[c];
      r := r[1..];
    }
    forall k | 0 <= k < |r| ensures Fresh(r[k], now) {
      assert r[0] == log[|log| - |r|] && r[k] == log[|log| - |r| + k];
    }
  }

  /** Keeps the newest eight. */
  method Truncate(window: seq<Sample>, ghost log: seq<Sample>, ghost now: nat) returns (r: seq<Sample>)
    requires Unpruned(window, log, now) && forall k :: 0 <= k < |window| ==> Fresh(window[k], now)
    ensures Exact(r, log, now)
  {
    r := window;
    while |r| > MAX_SAMPLES
      invariant Unpruned(r, log, now) && forall k :: 0 <= k < |r| ==> Fresh(r[k], now)
    {
      r := r[1..];
    }
    ExactFrom(r, log, now);
  }

  lemma ExactFrom(r: seq<Sample>, log: seq<Sample>, now: nat)
    requires Unpruned(r, log, now) && |r| <= MAX_SAMPLES && forall k :: 0 <= k < |r| ==> Fresh(r[k], now)
    ensures Exact(r, log, now)
  {
    forall i | |log| - |r| <= i < |log| ensures Counts(log, now, i) {
      assert log[i] == r[i - (|log| - |r|)];
    }
  }

  // ------------------------------------------------------------------ the estimate

  function AtMost(a: real, b: real): bool { a <= b }

  function Speeds(window: seq<Sample>): (r: seq<real>)
    ensures |r| == |window| && forall k :: 0 <= k < |r| ==> r[k] == window[k].bps
  {
    seq(|window|, k requires 0 <= k < |window| => window[k].bps)
  }

  function SumR(s: seq<real>): real { if s == [] then 0.0 else s[0] + SumR(s[1..]) }

  lemma {:induction false} SumBetween(s: seq<real>, lo: real, hi: real)
    requires forall k :: 0 <= k < |s| ==> lo <= s[k] <= hi
    ensures |s| as real * lo <= SumR(s) <= |s| as real * hi
  {
    if s != [] {
      SumBetween(s[1..], lo, hi);
      var n := |s| - 1;
      assert |s| as real == n as real + 1.0;
      assert (n as real + 1.0) * lo == n as real * lo + lo && (n as real + 1.0) * hi == n as real * hi + hi;
    }
  }

  lemma MeanBetween(s: seq<real>, lo: real, hi: real)
    requires s != [] && forall k :: 0 <= k < |s| ==> lo <= s[k] <= hi
    ensures lo <= SumR(s) / |s| as real <= hi
  {
    SumBetween(s, lo, hi);
    Divide(SumR(s), |s| as real, lo, hi);
  }

  lemma Divide(t: real, n: real, lo: real, hi: real)
    requires 0.0 < n && n * lo <= t <= n * hi
    ensures lo <= t / n <= hi
  {
    assert t / n * n == t;
  }

  /** The speeds averaged: all of them, or all but a highest one that is clearly an outlier. */
  ghost predicate Averaged(all: seq<real>, kept: seq<real>) {
    var sorted := SortBy(all, AtMost);
    if Outlier(sorted) then kept == sorted[..|sorted| - 1] else kept == sorted
  }

  /** The highest of five or more sorted speeds exceeds four times their positive median. */
  predicate Outlier(sorted: seq<real>) {
    |sorted| >= TRIM_FROM && sorted[|sorted| / 2] > 0.0 && sorted[|sorted| - 1] > sorted[|sorted| / 2] * 4.0
  }

  method Trimmed(all: seq<real>) returns (values: seq<real>)
    requires all != []
    ensures Averaged(all, values) && values != []
    ensures forall k :: 0 <= k < |values| ==> values[k] in all
  {
    SortedSpeeds(all);
    values := SortBy(all, AtMost);
    if |values| >= TRIM_FROM {
      var median := values[|values| / 2];
      var highest := values[|values| - 1];
      if median > 0.0 && highest > median * 4.0 { values := values[..|values| - 1]; }
    }
  }

  lemma SortedSpeeds(all: seq<real>)
    ensures |SortBy(all, AtMost)| == |all|
    ensures forall k :: 0 <= k < |all| ==> SortBy(all, AtMost)[k] in all
  {
    SortCorrect(all, AtMost);
    var sorted := SortBy(all, AtMost);
    forall k | 0 <= k < |all| ensures sorted[k] in all {
      assert sorted[k] in multiset(sorted);
    }
  }

  lemma LastIsHighest(all: seq<real>, k: nat)
    requires k < |all|
    ensures |SortBy(all, AtMost)| == |all| && SortBy(all, AtMost)[k] <= SortBy(all, AtMost)[|all| - 1]
  {
    SortCorrect(all, AtMost);
    var sorted := SortBy(all, AtMost);
    assert k < |all| - 1 ==> AtMost(sorted[k], sorted[|all| - 1]);
  }

  /** A speed is dropped only from five or more, only when it exceeds four times the median, and then no
      kept speed exceeds it. */
  lemma TrimmedBelowOutlier(all: seq<real>, kept: seq<real>, k: nat)
    requires all != [] && Averaged(all, kept) && |kept| < |all| && k < |kept|
    ensures var sorted := SortBy(all, AtMost);
            |sorted| == |all| && Outlier(sorted) && kept[k] <= sorted[|all| - 1]
  {
    SortedSpeeds(all);
    LastIsHighest(all, k);
  }

  ghost predicate AllBetween(window: seq<Sample>, lo: real, hi: real) {
    forall k :: 0 <= k < |window| ==> lo <= window[k].bps <= hi
  }

  /** The average of the speeds kept, which lies between any bounds of all speeds. */
  method Average(window: seq<Sample>) returns (mean: real)
    requires window != []
    ensures exists values :: values != [] && Averaged(Speeds(window), values) && mean == SumR(values) / |values| as real
    ensures forall lo, hi :: AllBetween(window, lo, hi) ==> lo <= mean <= hi
  {
    var values := Trimmed(Speeds(window));
    mean := SumR(values) / |values| as real;
    forall lo, hi | AllBetween(window, lo, hi) ensures lo <= mean <= hi {
      forall k | 0 <= k < |values| ensures lo <= values[k] <= hi {
        var j :| 0 <= j < |window| && Speeds(window)[j] == values[k];
        assert lo <= window[j].bps <= hi;
      }
      MeanBetween(values, lo, hi);
    }
  }

  class SpeedWindow {
    var samples: seq<Sample>
    ghost var log: seq<Sample>
    ghost var clock: nat

    /** The queue is exactly the observations that count at the last operation's time. */
    ghost predicate Valid()
      reads this
    {
      Chronological(log, clock) && Exact(samples, log, clock)
    }

    constructor ()
      ensures Valid() && log == [] && clock == 0
    {
      samples, log, clock := [], [], 0;
    }

    method Record(now: nat, bps: real)
      requires Valid() && clock <= now
      modifies this
      ensures Valid() && log == old(log) + [Sample(now, bps)] && clock == now
    {
      StaysUncounted(samples, log, clock, now, Sample(now, bps));
      samples := samples + [Sample(now, bps)];
      log, clock := log + [Sample(now, bps)], now;
      samples := Prune(samples, now, log);
      samples := Truncate(samples, log, now);
    }

    /** The estimate lies between the slowest and the fastest observation that counts, and exists
        exactly when one does. */
    method Estimate(now: nat) returns (r: Option<real>)
      requires Valid() && clock <= now
      modifies this
      ensures Valid() && log == old(log) && clock == now
      ensures r.None? <==> samples == []
      ensures r.Some? ==> exists values :: values != [] && Averaged(Speeds(samples), values) && r.value == SumR(values) / |values| as real
      ensures r.Some? ==> forall lo, hi :: AllBetween(samples, lo, hi) ==> lo <= r.value <= hi
    {
      if samples != [] { assert Counts(log, clock, |log| - |samples|); }
      StaysExpired(samples, log, clock, now);
      samples := Prune(samples, now, log);
      clock := now;
      ExactFrom(samples, log, now);
      if samples == [] { return None; }
      var mean := Average(samples);
      r := Some(mean);
    }
  }

  lemma StaysExpired(window: seq<Sample>, log: seq<Sample>, past: nat, now: nat)
    requires Exact(window, log, past) && past <= now
    ensures Unpruned(window, log, now)
  {
    forall i | 0 <= i < |log| - |window| ensures !Counts(log, now, i) {
      assert !Counts(log, past, i);
    }
  }

  lemma StaysUncounted(window: seq<Sample>, log: seq<Sample>, past: nat, now: nat, s: Sample)
    requires Exact(window, log, past) && past <= now
    ensures Unpruned(window + [s], log + [s], now)
  {
    forall i | 0 <= i < |log| - |window| ensures !Counts(log + [s], now, i) {
      assert !Counts(log, past, i);
    }
  }
}
