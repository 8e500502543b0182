/** Cache admission and eviction. The index maps keys to records; readers, deletions and new leases
    of other tasks land between any two awaits, but no insertion does, because admissions hold the
    capacity lock. */
module Cache {
  import opened Collections

  type Key = string
  type Time = int // milliseconds

  const BATCH: nat := 512

  datatype Record = Record(size: int, hits: int, lastAccess: Time)

  datatype Entry = Entry(key: Key, record: Record)

  datatype Policy = Lru | Lfu | Balanced

  datatype Config = Config(maxBytes: nat, high: real, low: real, policy: Policy) {
    /** What settings validation accepts for the watermarks. */
    predicate Valid() { 0.5 <= high <= 1.0 && 0.1 <= low <= 0.99 && low < high && maxBytes <= U64_MAX }

    /** Watermarks in bytes. */
    function HighBytes(): int { Fraction(maxBytes, high) }

    function LowBytes(): int { Fraction(maxBytes, low) }
  }

  /** A fraction of a byte count, rounded down. */
  function Fraction(m: nat, f: real): int { (m as real * f).Floor }

  lemma FractionWithin(m: nat, f: real)
    requires 0.0 <= f <= 1.0
    ensures 0 <= Fraction(m, f) <= m
  {
    var x := m as real * f;
    assert 0.0 <= x <= m as real;
  }

  /** A watermark is the largest whole byte count within its share of the maximum. */
  lemma FractionExactly(m: nat, f: real, n: int)
    ensures n <= Fraction(m, f) <==> n as real <= m as real * f
  {
  }

  lemma FractionMonotone(m: nat, f: real, g: real)
    requires f <= g
    ensures Fraction(m, f) <= Fraction(m, g)
  {
    var x, y := m as real * f, m as real * g;
    assert x <= y;
  }

  lemma WatermarksOrdered(c: Config)
    requires c.Valid()
    ensures 0 <= c.LowBytes() <= c.HighBytes() <= c.maxBytes
  {
    FractionWithin(c.maxBytes, c.low);
    FractionMonotone(c.maxBytes, c.low, c.high);
    FractionWithin(c.maxBytes, c.high);
  }

  /** `size_bytes.max(0)`. */
  function Size(r: Record): nat { Max(r.size, 0) }

  function Sizes(index: map<Key, Record>): map<Key, nat> { map k | k in index :: Size(index[k]) }

  /** All indexed bytes. */
  ghost function Bytes(index: map<Key, Record>): nat { Total(Sizes(index)) }

  function SumSizes(es: seq<Entry>): nat { if es == [] then 0 else SumSizes(es[..|es| - 1]) + Size(es[|es| - 1].record) }

  predicate ValidKey(key: Key) {
    |key| == 64 && forall i :: 0 <= i < 64 ==>
      '0' <= key[i] <= '9' || 'a' <= key[i] <= 'f' || 'A' <= key[i] <= 'F'
  }

  function Real(n: int): real { n as real }

  /** Whole seconds since the last access. */
  function AgeSeconds(r: Record, now: Time): nat { Max(now - r.lastAccess, 0) / 1000 }

  /** Used later is not older, and ages differ by whole seconds. */
  lemma AgeFollowsAccess(a: Record, b: Record, now: Time)
    ensures a.lastAccess <= b.lastAccess ==> AgeSeconds(b, now) <= AgeSeconds(a, now)
    ensures a.lastAccess + 1000 <= b.lastAccess <= now ==> AgeSeconds(b, now) < AgeSeconds(a, now)
  {
  }

  ghost predicate Increasing(f: real -> real) { forall x, y :: x < y ==> f(x) < f(y) }

  /** Under LRU the score orders entries by age alone. */
  lemma LruByAge(a: Record, b: Record, now: Time, ln1p: real -> real)
    ensures RetentionScore(a, now, Lru, ln1p) <= RetentionScore(b, now, Lru, ln1p) <==> AgeSeconds(b, now) <= AgeSeconds(a, now)
    ensures a.lastAccess <= b.lastAccess ==> RetentionScore(a, now, Lru, ln1p) <= RetentionScore(b, now, Lru, ln1p)
  {
    AgeFollowsAccess(a, b, now);
  }

  /** Under LFU entries of one age go by hits, and entries of equal hits by age. */
  lemma LfuByHitsThenAge(a: Record, b: Record, now: Time, ln1p: real -> real)
    requires Increasing(ln1p)
    ensures AgeSeconds(a, now) == AgeSeconds(b, now) ==>
              (RetentionScore(a, now, Lfu, ln1p) <= RetentionScore(b, now, Lfu, ln1p) <==> Max(a.hits, 0) <= Max(b.hits, 0))
    ensures Max(a.hits, 0) == Max(b.hits, 0) ==>
              (RetentionScore(a, now, Lfu, ln1p) <= RetentionScore(b, now, Lfu, ln1p) <==> AgeSeconds(b, now) <= AgeSeconds(a, now))
  {
    var x, y := Real(Max(a.hits, 0)), Real(Max(b.hits, 0));
    assert x < y ==> ln1p(x) < ln1p(y);
    assert y < x ==> ln1p(y) < ln1p(x);
  }

  /** Under the balanced policy, all else equal, the younger, the more used and the smaller entry stays. */
  lemma BalancedByEach(a: Record, b: Record, now: Time, ln1p: real -> real)
    requires Increasing(ln1p)
    ensures Max(a.hits, 0) == Max(b.hits, 0) && Size(a) == Size(b) ==>
              (RetentionScore(a, now, Balanced, ln1p) <= RetentionScore(b, now, Balanced, ln1p) <==> AgeSeconds(b, now) <= AgeSeconds(a, now))
    ensures AgeSeconds(a, now) == AgeSeconds(b, now) && Size(a) == Size(b) ==>
              (RetentionScore(a, now, Balanced, ln1p) <= RetentionScore(b, now, Balanced, ln1p) <==> Max(a.hits, 0) <= Max(b.hits, 0))
    ensures AgeSeconds(a, now) == AgeSeconds(b, now) && Max(a.hits, 0) == Max(b.hits, 0) ==>
              (RetentionScore(a, now, Balanced, ln1p) <= RetentionScore(b, now, Balanced, ln1p) <==> Size(b) <= Size(a))
  {
    YouthCounts(AgeSeconds(a, now), AgeSeconds(b, now));
    YouthCounts(AgeSeconds(b, now), AgeSeconds(a, now));
    var x, y := Real(Max(a.hits, 0)), Real(Max(b.hits, 0));
    assert x < y ==> ln1p(x) < ln1p(y);
    assert y < x ==> ln1p(y) < ln1p(x);
    var s, t := Real(Max(a.size, 0)) / (1024.0 * 1024.0), Real(Max(b.size, 0)) / (1024.0 * 1024.0);
    assert s < t ==> ln1p(s) < ln1p(t);
    assert t < s ==> ln1p(t) < ln1p(s);
  }

  /** What hits, age and size are worth against each other: a unit of the logarithm of hits outweighs a
      thousand hours under LFU, and three units of the logarithm of size under the balanced policy. */
  lemma Tradeoffs(a: Record, b: Record, now: Time, ln1p: real -> real)
    ensures var hits := ln1p(Real(Max(b.hits, 0))) - ln1p(Real(Max(a.hits, 0)));
            RetentionScore(a, now, Lfu, ln1p) <= RetentionScore(b, now, Lfu, ln1p) <==>
              Real(AgeSeconds(b, now) - AgeSeconds(a, now)) <= 3600000.0 * hits
    ensures var hits := ln1p(Real(Max(b.hits, 0))) - ln1p(Real(Max(a.hits, 0)));
            var size := ln1p(Real(Size(b)) / 1048576.0) - ln1p(Real(Size(a)) / 1048576.0);
            AgeSeconds(a, now) == AgeSeconds(b, now) ==>
              (RetentionScore(a, now, Balanced, ln1p) <= RetentionScore(b, now, Balanced, ln1p) <==> size <= 3.0 * hits)
  {
  }

  /** What recency is worth: twenty for an entry used just now, half of that after a day. */
  function Youth(seconds: nat): real { 20.0 / (1.0 + Real(seconds) / 3600.0 / 24.0) }

  lemma YouthCounts(x: nat, y: nat)
    ensures x < y ==> Youth(y) < Youth(x)
    ensures Youth(0) == 20.0 && Youth(86400) == 10.0
  {
    var u, v := 1.0 + Real(x) / 3600.0 / 24.0, 1.0 + Real(y) / 3600.0 / 24.0;
    if x < y {
      assert 1.0 <= u < v;
      Quotients(20.0, u, v);
    }
  }

  lemma Quotients(n: real, u: real, v: real)
    requires 0.0 < n && 0.0 < u < v
    ensures n / v < n / u
  {
    assert n / v * v == n && n / u * u == n;
    assert n / v * u < n / v * v;
  }

  /** How much an entry deserves to stay; `ln1p` is the natural logarithm of one plus its argument. */
  function RetentionScore(r: Record, now: Time, policy: Policy, ln1p: real -> real): real {
    var ageHours := Real(AgeSeconds(r, now)) / 3600.0;
    var hits := Real(Max(r.hits, 0));
    var sizeMib := Real(Max(r.size, 0)) / (1024.0 * 1024.0);
    match policy
    case Lru => -ageHours
    case Lfu => ln1p(hits) - ageHours * 0.001
    case Balanced => Youth(AgeSeconds(r, now)) + ln1p(hits) * 3.0 - ln1p(sizeMib)
  }

  function ByScore(now: Time, policy: Policy, ln1p: real -> real): (Entry, Entry) -> bool {
    (a: Entry, b: Entry) => RetentionScore(a.record, now, policy, ln1p) <= RetentionScore(b.record, now, policy, ln1p)
  }

  lemma ScoreIsPreorder(now: Time, policy: Policy, ln1p: real -> real)
    ensures TotalPreorder(ByScore(now, policy, ln1p))
  {
  }

  /** A query result: some of the index, each key once. */
  ghost predicate IsBatch(es: seq<Entry>, index: map<Key, Record>) {
    && (forall i :: 0 <= i < |es| ==> es[i].key in index && es[i].record == index[es[i].key])
    && (forall i, j :: 0 <= i < j < |es| ==> es[i].key != es[j].key)
    && |es| == Min(|index|, BATCH)
  }

  /** The order of the candidate query: hit count first under LFU, then last access. */
  function QueryOrder(policy: Policy): (Entry, Entry) -> bool {
    (a: Entry, b: Entry) =>
      if policy.Lfu? && a.record.hits != b.record.hits then a.record.hits < b.record.hits
      else a.record.lastAccess <= b.record.lastAccess
  }

  /** Rows outside the batch were used at least as recently as those in it, except that under LFU they have
      at least as many hits, and were used at least as recently if they have equally many. */
  ghost predicate WorthMore(es: seq<Entry>, index: map<Key, Record>, policy: Policy) {
    forall k, i :: k in index && 0 <= i < |es| && Entry(k, index[k]) !in es ==>
      && (policy.Lfu? ==> es[i].record.hits <= index[k].hits)
      && ((policy.Lfu? && es[i].record.hits < index[k].hits) || es[i].record.lastAccess <= index[k].lastAccess)
  }

  lemma LeastIsWorthMore(es: seq<Entry>, index: map<Key, Record>, policy: Policy)
    requires LeastOf(es, index, QueryOrder(policy))
    ensures WorthMore(es, index, policy)
  {
    forall k, i | k in index && 0 <= i < |es| && Entry(k, index[k]) !in es
      ensures (policy.Lfu? ==> es[i].record.hits <= index[k].hits)
           && ((policy.Lfu? && es[i].record.hits < index[k].hits) || es[i].record.lastAccess <= index[k].lastAccess)
    {
      assert QueryOrder(policy)(es[i], Entry(k, index[k]));
    }
  }

  /** Least recently used first: whatever a pass removes is at least as old, in whole seconds, as every row
      of the index that the pass did not look at. */
  ghost predicate OldestGo(es: seq<Entry>, seen: seq<bool>, admitted: Key, index: map<Key, Record>, now: Time) {
    |seen| <= |es| && forall e, k :: e in Chosen(es, seen, admitted) && k in index && Entry(k, index[k]) !in es[..|seen|] ==>
      AgeSeconds(index[k], now) <= AgeSeconds(e.record, now)
  }

  lemma LruEvictsOldest(es: seq<Entry>, seen: seq<bool>, admitted: Key, index: map<Key, Record>, now: Time, ln1p: real -> real)
    requires |seen| <= |es| && Sorted(es, ByScore(now, Lru, ln1p)) && WorthMore(es, index, Lru)
    ensures OldestGo(es, seen, admitted, index, now)
  {
    forall e, k | e in Chosen(es, seen, admitted) && k in index && Entry(k, index[k]) !in es[..|seen|]
      ensures AgeSeconds(index[k], now) <= AgeSeconds(e.record, now)
    {
      ChosenFrom(es, seen, admitted);
      var i :| 0 <= i < |seen| && es[..|seen|][i] == e;
      if Entry(k, index[k]) in es {
        var j :| 0 <= j < |es| && es[j] == Entry(k, index[k]);
        assert ByScore(now, Lru, ln1p)(es[i], es[j]);
        LruByAge(e.record, index[k], now, ln1p);
      } else {
        assert es[i].record.lastAccess <= index[k].lastAccess;
        AgeFollowsAccess(e.record, index[k], now);
      }
    }
  }

  /** Whatever a pass removes scores no more than any row of its batch that it did not look at. */
  lemma LowestGo(es: seq<Entry>, seen: seq<bool>, admitted: Key, order: (Entry, Entry) -> bool, e: Entry, j: nat)
    requires |seen| <= j < |es| && Sorted(es, order) && e in Chosen(es, seen, admitted)
    ensures order(e, es[j])
  {
    ChosenFrom(es, seen, admitted);
    var i :| 0 <= i < |seen| && es[..|seen|][i] == e;
  }

  /** What other tasks do at one await: delete entries, change hit counts and access times, and
      take or drop leases. */
  datatype Others = Others(removed: set<Key>, touched: map<Key, (int, Time)>, leased: set<Key>)

  /** The entries a pass over the sorted batch takes, given which ones it saw leased. */
  function Chosen(es: seq<Entry>, seen: seq<bool>, admitted: Key): seq<Entry>
    requires |seen| <= |es|
  {
    if seen == [] then []
    else
      var n := |seen| - 1;
      var before := Chosen(es, seen[..n], admitted);
      if seen[n] || es[n].key == admitted then before else before + [es[n]]
  }

  lemma {:induction false} ChosenFrom(es: seq<Entry>, seen: seq<bool>, admitted: Key)
    requires |seen| <= |es|
    ensures forall e :: e in Chosen(es, seen, admitted) ==> e.key != admitted && e in es[..|seen|]
  {
    if seen != [] {
      var n := |seen| - 1;
      ChosenFrom(es, seen[..n], admitted);
      assert es[..|seen|] == es[..n] + [es[n]];
    }
  }

  lemma ChosenNext(es: seq<Entry>, seen: seq<bool>, admitted: Key, b: bool)
    requires |seen| < |es|
    ensures var before := Chosen(es, seen, admitted);
            Chosen(es, seen + [b], admitted) == if b || es[|seen|].key == admitted then before else before + [es[|seen|]]
  {
    assert (seen + [b])[..|seen|] == seen;
  }

  /** No shorter pass than this one frees enough. */
  ghost predicate Minimal(es: seq<Entry>, seen: seq<bool>, admitted: Key, need: int) {
    |seen| <= |es| && forall k :: 0 <= k < |seen| ==> TooLittle(es, seen, k, admitted, need)
  }

  /** The first `k` entries of a pass free too little. */
  ghost predicate TooLittle(es: seq<Entry>, seen: seq<bool>, k: nat, admitted: Key, need: int)
    requires k <= |seen| <= |es|
  {
    SumSizes(Chosen(es, seen[..k], admitted)) < need
  }

  /** Without the last entry a pass takes, it frees too little. */
  ghost predicate NoneTooMany(victims: seq<Entry>, need: int) {
    victims != [] ==> SumSizes(victims[..|victims| - 1]) < need
  }

  lemma {:induction false} LastWasNeeded(es: seq<Entry>, seen: seq<bool>, admitted: Key, need: int)
    requires Minimal(es, seen, admitted, need)
    ensures NoneTooMany(Chosen(es, seen, admitted), need)
  {
    if seen != [] {
      var n := |seen| - 1;
      var before := Chosen(es, seen[..n], admitted);
      if Chosen(es, seen, admitted) == before {
        forall k | 0 <= k < n ensures TooLittle(es, seen[..n], k, admitted, need) {
          assert TooLittle(es, seen, k, admitted, need) && seen[..n][..k] == seen[..k];
        }
        LastWasNeeded(es, seen[..n], admitted, need);
      } else {
        assert TooLittle(es, seen, n, admitted, need) && (before + [es[n]])[..|before|] == before;
      }
    }
  }

  lemma {:induction false} SumOfBoth(a: seq<Entry>, b: seq<Entry>)
    ensures SumSizes(a + b) == SumSizes(a) + SumSizes(b)
  {
    if b == [] {
      assert a + b == a;
    } else {
      SumOfBoth(a, b[..|b| - 1]);
      assert (a + b)[..|a + b| - 1] == a + b[..|b| - 1];
    }
  }

  /** One round's victims after those of the earlier rounds, which freed too little. */
  lemma StillNoneTooMany(victims: seq<Entry>, more: seq<Entry>, need: int)
    requires NoneTooMany(more, need - SumSizes(victims)) && more != []
    ensures NoneTooMany(victims + more, need) && SumSizes(victims + more) == SumSizes(victims) + SumSizes(more)
  {
    SumOfBoth(victims, more);
    SumOfBoth(victims, more[..|more| - 1]);
    assert (victims + more)[..|victims + more| - 1] == victims + more[..|more| - 1];
  }

  /** Nobody else removes or changes the row. */
  ghost predicate Alone(o: Others, key: Key) { key !in o.removed && key !in o.touched }

  ghost predicate QuietRound(others: nat -> Others, key: Key) { forall i :: Alone(others(i), key) }

  ghost predicate Quiet(gaps: nat -> Others, others: (nat, nat) -> Others, key: Key) {
    (forall i :: Alone(gaps(i), key)) && forall i, j :: Alone(others(i, j), key)
  }

  /** The row of the key, if there was one, is as it was. */
  ghost predicate RowStays(was: map<Key, Record>, index: map<Key, Record>, key: Key) {
    key in was ==> key in index && index[key] == was[key]
  }

  /** An entry is passed over as leased exactly when it is leased at the moment it is looked at. */
  ghost predicate SawLeases(es: seq<Entry>, seen: seq<bool>, others: nat -> Others) {
    |seen| <= |es| && forall i :: 0 <= i < |seen| ==> (seen[i] <==> es[i].key in others(2 * i).leased)
  }

  lemma SawNext(es: seq<Entry>, seen: seq<bool>, others: nat -> Others, b: bool)
    requires |seen| < |es| && SawLeases(es, seen, others) && (b <==> es[|seen|].key in others(2 * |seen|).leased)
    ensures SawLeases(es, seen + [b], others)
  {
  }

  /** A pass goes on by one entry. */
  lemma PassNext(es: seq<Entry>, seen: seq<bool>, admitted: Key, need: int, others: nat -> Others, b: bool)
    requires |seen| < |es| && Minimal(es, seen, admitted, need) && SumSizes(Chosen(es, seen, admitted)) < need
    requires SawLeases(es, seen, others) && (b <==> es[|seen|].key in others(2 * |seen|).leased)
    ensures Minimal(es, seen + [b], admitted, need) && SawLeases(es, seen + [b], others)
    ensures var e, before, after := es[|seen|], Chosen(es, seen, admitted), Chosen(es, seen + [b], admitted);
            if b || e.key == admitted then after == before
            else after == before + [e] && SumSizes(after) == SumSizes(before) + Size(e.record)
  {
    ChosenNext(es, seen, admitted, b);
    MinimalNext(es, seen, admitted, need, b);
    SawNext(es, seen, others, b);
    var before := Chosen(es, seen, admitted);
    assert (before + [es[|seen|]])[..|before|] == before;
  }

  lemma MinimalNext(es: seq<Entry>, seen: seq<bool>, admitted: Key, need: int, b: bool)
    requires |seen| < |es| && Minimal(es, seen, admitted, need) && SumSizes(Chosen(es, seen, admitted)) < need
    ensures Minimal(es, seen + [b], admitted, need)
  {
    forall k | 0 <= k < |seen + [b]| ensures TooLittle(es, seen + [b], k, admitted, need) {
      assert k < |seen| ==> TooLittle(es, seen, k, admitted, need) && (seen + [b])[..k] == seen[..k];
      assert (seen + [b])[..|seen|] == seen;
    }
  }

  lemma {:induction false} ChosenAccount(es: seq<Entry>, seen: seq<bool>, admitted: Key, before: map<Key, Record>, after: map<Key, Record>)
    requires |seen| <= |es| && IsBatch(es, before)
    requires after.Keys <= before.Keys && forall k :: k in after ==> Size(after[k]) == Size(before[k])
    requires forall e :: e in Chosen(es, seen, admitted) ==> e.key !in after
    ensures Bytes(after) + SumSizes(Chosen(es, seen, admitted)) <= Bytes(before)
  {
    if seen == [] {
      TotalSubmap(Sizes(after), Sizes(before));
    } else {
      var n := |seen| - 1;
      var c := Chosen(es, seen, admitted);
      var b := Chosen(es, seen[..n], admitted);
      if c == b {
        ChosenAccount(es, seen[..n], admitted, before, after);
      } else {
        var e := es[n];
        assert c == b + [e] && c[..|c| - 1] == b && c[|b|] == e;
        var put := after[e.key := before[e.key]];
        TotalPut(Sizes(after), e.key, Size(e.record));
        assert Sizes(put) == Sizes(after)[e.key := Size(e.record)];
        forall x | x in b ensures x.key !in put {
          ChosenFrom(es, seen[..n], admitted);
          assert x in c;
        }
        ChosenAccount(es, seen[..n], admitted, before, put);
      }
    }
  }

  lemma BatchAfterSort(es: seq<Entry>, sorted: seq<Entry>, index: map<Key, Record>)
    requires IsBatch(es, index) && multiset(es) == multiset(sorted)
    ensures IsBatch(sorted, index)
  {
    assert NoDup(es);
    PermutationNoDup(es, sorted);
    assert |multiset(es)| == |multiset(sorted)|;
    forall i | 0 <= i < |sorted| ensures sorted[i].key in index && sorted[i].record == index[sorted[i].key] {
      assert sorted[i] in multiset(es);
    }
    forall i, j | 0 <= i < j < |sorted| ensures sorted[i].key != sorted[j].key {
      assert sorted[i] != sorted[j];
    }
  }

  /** Writing a row adds at most its size. */
  lemma PutBytes(index: map<Key, Record>, key: Key, r: Record)
    ensures Bytes(index[key := r]) <= Bytes(index) + Size(r)
  {
    assert Sizes(index[key := r]) == Sizes(index)[key := Size(r)];
    TotalPut(Sizes(index), key, Size(r));
  }

  datatype Verdict = Passed(leased: bool) | Removed | Invalid

  datatype Reserve = Reserved | TooLarge | Full | BadKey | QueryFailed

  /** Why eviction gave up: a batch of the index as it was in some round, nothing of which may go. */
  datatype Stuck = Stuck(index: map<Key, Record>, batch: seq<Entry>, round: nat) {
    ghost predicate Valid(admitted: Key, policy: Policy, others: (nat, nat) -> Others) {
      && IsBatch(batch, index) && WorthMore(batch, index, policy)
      && forall i :: 0 <= i < |batch| ==> batch[i].key == admitted || batch[i].key in others(round, 2 * i).leased
    }
  }

  lemma {:induction false} NothingChosen(es: seq<Entry>, seen: seq<bool>, admitted: Key)
    requires |seen| <= |es| && Chosen(es, seen, admitted) == []
    ensures forall i :: 0 <= i < |seen| ==> es[i].key == admitted || seen[i]
  {
    if seen != [] { NothingChosen(es, seen[..|seen| - 1], admitted); }
  }

  class CacheStore {
    var index: map<Key, Record>
    var leased: set<Key>

    constructor ()
      ensures index == map[] && leased == {}
    {
      index, leased := map[], {};
    }

    /** The index is a part of an earlier one, with the same sizes. */
    ghost predicate Within(before: map<Key, Record>)
      reads this
    {
      index.Keys <= before.Keys && forall k :: k in index ==> Size(index[k]) == Size(before[k])
    }

    method Interleave(o: Others)
      modifies this
      ensures Within(old(index)) && leased == o.leased
      ensures forall key :: Alone(o, key) ==> RowStays(old(index), index, key)
    {
      index := map k | k in index && k !in o.removed ::
        if k in o.touched then index[k].(hits := o.touched[k].0, lastAccess := o.touched[k].1) else index[k];
      leased := o.leased;
    }

    /** `SUM(MAX(size_bytes, 0))`, which SQLite refuses beyond a signed 64-bit integer. */
    method Aggregate() returns (bytes: Option<nat>)
      ensures bytes == if Bytes(index) <= I64_MAX then Some(Bytes(index)) else None
    {
      var sum := AddUp(Sizes(index));
      bytes := if sum <= I64_MAX then Some(sum) else None;
    }

    /** One entry's turn: passed over if it is the admitted key or leased now, otherwise removed after
        waiting for its lock. */
    method Consider(e: Entry, admitted: Key, at: Others, wait: Others) returns (verdict: Verdict)
      modifies this
      ensures Within(old(index))
      ensures verdict.Passed? <==> e.key == admitted || e.key in at.leased
      ensures verdict.Passed? ==> (verdict.leased <==> e.key in at.leased)
      ensures verdict.Invalid? ==> !ValidKey(e.key)
      ensures verdict.Removed? ==> e.key !in index
      ensures Alone(at, admitted) && Alone(wait, admitted) ==> RowStays(old(index), index, admitted)
    {
      Interleave(at);
      if e.key == admitted || e.key in leased { return Passed(e.key in leased); }
      if !ValidKey(e.key) { return Invalid; }
      Interleave(wait);
      index := index - {e.key};
      verdict := Removed;
    }

    /** One pass over a sorted batch: skips the admitted key and leased keys, removes the others in
        order, and stops at the first one that meets the need. */
    method EvictBatch(es: seq<Entry>, need: nat, admitted: Key, others: nat -> Others)
      returns (seen: seq<bool>, freed: nat, valid: bool)
      requires IsBatch(es, index) && 0 < need
      modifies this
      ensures |seen| <= |es| && freed == SumSizes(Chosen(es, seen, admitted))
      ensures Minimal(es, seen, admitted, need) && (valid && |seen| < |es| ==> need <= freed)
      ensures SawLeases(es, seen, others) && (!valid ==> |seen| < |es| && !ValidKey(es[|seen|].key))
      ensures Within(old(index)) && forall e :: e in Chosen(es, seen, admitted) ==> e.key !in index
      ensures Bytes(index) + freed <= old(Bytes(index))
      ensures QuietRound(others, admitted) ==> RowStays(old(index), index, admitted)
    {
      seen, freed, valid := [], 0, true;
      for i := 0 to |es|
        invariant |seen| == i && Within(old(index))
        invariant freed == SumSizes(Chosen(es, seen, admitted)) < need
        invariant Minimal(es, seen, admitted, need) && SawLeases(es, seen, others)
        invariant forall e :: e in Chosen(es, seen, admitted) ==> e.key !in index
        invariant QuietRound(others, admitted) ==> RowStays(old(index), index, admitted)
      {
        var e := es[i];
        ghost var before := index;
        var verdict := Consider(e, admitted, others(2 * i), others(2 * i + 1));
        if QuietRound(others, admitted) { assert RowStays(before, index, admitted); }
        if verdict.Invalid? {
          valid := false;
          break;
        }
        var held := verdict.Passed? && verdict.leased;
        PassNext(es, seen, admitted, need, others, held);
        seen := seen + [held];
        if verdict.Passed? { continue; }
        freed := freed + Size(e.record);
        if freed >= need { break; }
      }
      ChosenAccount(es, seen, admitted, old(index), index);
    }

    /** The candidate query: the first 512 entries in query order. */
    method EvictionCandidates(policy: Policy) returns (es: seq<Entry>)
      ensures IsBatch(es, index) && Sorted(es, QueryOrder(policy)) && WorthMore(es, index, policy)
      ensures LeastOf(es, index, QueryOrder(policy))
    {
      var all := Rows(index);
      var order := QueryOrder(policy);
      SortCorrect(all, order);
      var sorted := SortBy(all, order);
      es := sorted[..Min(|sorted|, BATCH)];
      FirstRows(all, sorted, index, order);
      LeastIsWorthMore(es, index, policy);
    }

    /** A batch of candidates in the order in which it is evicted: lowest retention first. */
    method SortedBatch(policy: Policy, now: Time, ln1p: real -> real) returns (es: seq<Entry>)
      ensures IsBatch(es, index) && WorthMore(es, index, policy) && Sorted(es, ByScore(now, policy, ln1p))
    {
      var candidates := EvictionCandidates(policy);
      var order := ByScore(now, policy, ln1p);
      ScoreIsPreorder(now, policy, ln1p);
      SortCorrect(candidates, order);
      es := SortBy(candidates, order);
      BatchAfterSort(candidates, es, index);
      LeastAfterSort(candidates, es, index, QueryOrder(policy));
      LeastIsWorthMore(es, index, policy);
    }

    /** One round of eviction: query a batch, sort it by retention, and evict from the low end. */
    method EvictRound(need: nat, admitted: Key, policy: Policy, now: Time, ln1p: real -> real, others: nat -> Others)
      returns (es: seq<Entry>, seen: seq<bool>, freed: nat, valid: bool)
      requires 0 < need
      modifies this
      ensures IsBatch(es, old(index)) && WorthMore(es, old(index), policy) && Sorted(es, ByScore(now, policy, ln1p))
      ensures policy.Lru? ==> OldestGo(es, seen, admitted, old(index), now)
      ensures Minimal(es, seen, admitted, need) && (valid && |seen| < |es| ==> need <= freed)
      ensures SawLeases(es, seen, others) && (!valid ==> |seen| < |es| && !ValidKey(es[|seen|].key))
      ensures freed == SumSizes(Chosen(es, seen, admitted)) && NoneTooMany(Chosen(es, seen, admitted), need)
      ensures Within(old(index)) && Bytes(index) + freed <= old(Bytes(index))
      ensures forall e :: e in Chosen(es, seen, admitted) ==> e.key !in index
      ensures Chosen(es, seen, admitted) != [] ==> |index| < |old(index)|
      ensures QuietRound(others, admitted) ==> RowStays(old(index), index, admitted)
    {
      es := SortedBatch(policy, now, ln1p);
      seen, freed, valid := EvictBatch(es, need, admitted, others);
      ChosenShrinks(es, seen, admitted, old(index), index);
      LastWasNeeded(es, seen, admitted, need);
      if policy.Lru? { LruEvictsOldest(es, seen, admitted, old(index), now, ln1p); }
    }

    /** Other tasks run, and then one round. */
    method NextRound(round: nat, need: nat, admitted: Key, policy: Policy, now: Time, ln1p: real -> real,
                     gaps: nat -> Others, others: (nat, nat) -> Others)
      returns (ghost before: map<Key, Record>, es: seq<Entry>, seen: seq<bool>, freed: nat, valid: bool)
      requires 0 < need
      modifies this
      ensures |seen| <= |es| && IsBatch(es, before) && WorthMore(es, before, policy) && before.Keys <= old(index).Keys
      ensures valid && Chosen(es, seen, admitted) == [] ==> Stuck(before, es, round).Valid(admitted, policy, others)
      ensures !valid ==> |seen| < |es| && !ValidKey(es[|seen|].key)
      ensures freed == SumSizes(Chosen(es, seen, admitted)) && NoneTooMany(Chosen(es, seen, admitted), need)
      ensures Within(old(index)) && Bytes(index) + freed <= old(Bytes(index))
      ensures Chosen(es, seen, admitted) != [] ==> |index| < |old(index)|
      ensures Quiet(gaps, others, admitted) ==> RowStays(old(index), index, admitted)
    {
      Interleave(gaps(round));
      TotalSubmap(Sizes(index), Sizes(old(index)));
      SetSmaller(index.Keys, old(index).Keys);
      before := index;
      var at := (i: nat) => others(round, i);
      assert Quiet(gaps, others, admitted) ==> Alone(gaps(round), admitted) && QuietRound(at, admitted);
      es, seen, freed, valid := EvictRound(need, admitted, policy, now, ln1p, at);
      if valid && Chosen(es, seen, admitted) == [] { NothingChosen(es, seen, admitted); }
    }

    /** Evicts batch after batch until enough is free. It ends because a round that removes nothing is the
        last. Other tasks run before the query of each round (`gaps`) and during it (`others`). */
    method EvictUntil(need: nat, admitted: Key, policy: Policy, now: nat -> Time, ln1p: real -> real,
                      gaps: nat -> Others, others: (nat, nat) -> Others)
      returns (r: Reserve, evicted: bool, ghost stuck: Stuck, ghost victims: seq<Entry>)
      modifies this
      ensures Within(old(index)) && Bytes(index) + SumSizes(victims) <= old(Bytes(index))
      ensures NoneTooMany(victims, need) && (evicted <==> victims != []) && (need == 0 ==> r.Reserved?)
      ensures r.Reserved? || r.Full? || r.BadKey?
      ensures r.Reserved? ==> need <= SumSizes(victims) && (!evicted ==> need == 0 && index == old(index))
      ensures r.Full? ==> stuck.Valid(admitted, policy, others) && stuck.index.Keys <= old(index).Keys
      ensures r.BadKey? ==> exists k :: k in old(index) && !ValidKey(k)
      ensures Quiet(gaps, others, admitted) ==> RowStays(old(index), index, admitted)
    {
      evicted, stuck, victims := false, Stuck(index, [], 0), [];
      var freed, round: nat := 0, 0;
      while freed < need
        invariant Within(old(index)) && 0 <= freed
        invariant Bytes(index) + freed <= old(Bytes(index))
        invariant (!evicted ==> freed == 0 && index == old(index)) && (evicted ==> 0 < need)
        invariant NoneTooMany(victims, need) && freed == SumSizes(victims) && (evicted <==> victims != [])
        invariant Quiet(gaps, others, admitted) ==> RowStays(old(index), index, admitted)
        decreases |index|
      {
        ghost var before;
        var es, seen, got, valid;
        before, es, seen, got, valid := NextRound(round, need - freed, admitted, policy, now(round), ln1p, gaps, others);
        if !valid { return BadKey, evicted, stuck, victims; }
        if Chosen(es, seen, admitted) == [] {
          stuck := Stuck(before, es, round);
          return Full, evicted, stuck, victims;
        }
        StillNoneTooMany(victims, Chosen(es, seen, admitted), need);
        victims := victims + Chosen(es, seen, admitted);
        freed, round, evicted := freed + got, round + 1, true;
      }
      r := Reserved;
    }

    /** Makes room for an object, evicting batch after batch. On success the index leaves room up to
        the high watermark if that was so from the start, and otherwise up to the larger of the low
        watermark and the object itself. No entry is evicted once enough is free, and the row of the
        admitted key is never evicted. Nothing is
        evicted and the high watermark still exceeded exactly when the index held no bytes and the
        object alone exceeds it. */
    method ReserveCapacity(incoming: nat, admitted: Key, c: Config, now: nat -> Time, ln1p: real -> real,
                           gaps: nat -> Others, others: (nat, nat) -> Others)
      returns (r: Reserve, evicted: bool, ghost stuck: Stuck, ghost victims: seq<Entry>)
      requires c.Valid() && incoming <= I64_MAX
      modifies this
      ensures Within(old(index))
      ensures r.TooLarge? <==> c.maxBytes < incoming
      ensures r.Reserved? && !evicted && c.HighBytes() < Bytes(index) + incoming <==>
                old(Bytes(index)) == 0 && c.HighBytes() < incoming <= c.maxBytes
      ensures r.Reserved? && !evicted ==> index == old(index)
      ensures r.Reserved? && evicted ==> Bytes(index) + incoming <= Max(c.LowBytes(), incoming)
      ensures NoneTooMany(victims, old(Bytes(index)) + incoming - Max(c.LowBytes(), incoming))
      ensures r.Reserved? ==> (evicted <==> victims != [])
      ensures Quiet(gaps, others, admitted) ==> RowStays(old(index), index, admitted)
      ensures r.Full? ==> Max(c.LowBytes(), incoming) < old(Bytes(index)) + incoming
      ensures r.Full? ==> stuck.Valid(admitted, c.policy, others) && stuck.index.Keys <= old(index).Keys
      ensures r.QueryFailed? <==> incoming <= c.maxBytes && I64_MAX < old(Bytes(index))
      ensures r.BadKey? ==> exists k :: k in old(index) && !ValidKey(k)
      ensures old(Bytes(index)) <= I64_MAX && old(Bytes(index)) + incoming <= c.HighBytes() ==>
                r.Reserved? && !evicted && index == old(index)
    {
      evicted, stuck, victims := false, Stuck(index, [], 0), [];
      WatermarksOrdered(c);
      if incoming > c.maxBytes { return TooLarge, false, stuck, victims; }
      var current := Aggregate();
      if current.None? { return QueryFailed, false, stuck, victims; }
      // Both terms fit a signed 64-bit integer, so the source's saturating sum is exact.
      assert current.value + incoming <= U64_MAX;
      if current.value + incoming <= c.HighBytes() { return Reserved, false, stuck, victims; }
      var target := Max(c.LowBytes(), incoming);
      var need := Max(current.value + incoming - target, 0);
      r, evicted, stuck, victims := EvictUntil(need, admitted, c.policy, now, ln1p, gaps, others);
    }

    /** Admission: reserve, commit the file, upsert the row. `hits` of a known key are kept. After every
        success the indexed bytes are at most the larger of the low watermark and the new object if
        anything was evicted, and in every case at most the configured maximum. If nothing was evicted
        they are at most the high watermark, except exactly when no bytes were indexed before and the
        new object alone exceeds it. */
    method Admit(key: Key, incoming: nat, c: Config, now: nat -> Time, ln1p: real -> real,
                 gaps: nat -> Others, others: (nat, nat) -> Others, last: Others)
      returns (r: Reserve, evicted: bool)
      requires c.Valid() && incoming <= I64_MAX
      modifies this
      ensures r.Reserved? ==> key in index && index[key].size == incoming && Bytes(index) <= c.maxBytes
      ensures r.Reserved? ==> index[key].lastAccess == now(0) && (key !in old(index) ==> index[key].hits == 0)
      ensures Quiet(gaps, others, key) && Alone(last, key) ==>
                r.Reserved? && key in old(index) ==> index[key].hits == old(index)[key].hits
      ensures r.Reserved? && !evicted && c.HighBytes() < Bytes(index) <==>
                old(Bytes(index)) == 0 && c.HighBytes() < incoming <= c.maxBytes
      ensures r.Reserved? && evicted ==> Bytes(index) <= Max(c.LowBytes(), incoming)
      ensures r.Reserved? ==> forall k :: k in index && k != key ==> k in old(index) && Size(index[k]) == Size(old(index)[k])
      ensures !r.Reserved? ==> Within(old(index))
      ensures r.TooLarge? <==> c.maxBytes < incoming
      ensures old(Bytes(index)) <= I64_MAX && old(Bytes(index)) + incoming <= c.HighBytes() ==> r.Reserved? && !evicted
    {
      ghost var stuck, victims;
      r, evicted, stuck, victims := ReserveCapacity(incoming, key, c, now, ln1p, gaps, others);
      if r != Reserved { return; }
      WatermarksOrdered(c);
      ghost var reserved := index;
      Interleave(last);
      TotalSubmap(Sizes(index), Sizes(reserved));
      var record := Record(incoming, if key in index then index[key].hits else 0, now(0));
      PutBytes(index, key, record);
      index := index[key := record];
      TotalBounds(Sizes(index), key);
    }
  }

  /** A concrete case: the first object of a cache of 100 bytes with high watermark 90 has 95 bytes.
      Nothing is evicted and the watermark is exceeded. */
  method FirstObjectAboveHighWatermark(key: Key, now: Time)
    returns (store: CacheStore, r: Reserve, evicted: bool, ghost c: Config)
    ensures c.Valid() && c.HighBytes() == 90 && r.Reserved? && !evicted
    ensures Bytes(store.index) == 95
  {
    var config := Config(100, 0.9, 0.8, Lru);
    c := config;
    assert 100.0 * 0.9 == 90.0 && 90.0.Floor == 90;
    store := new CacheStore();
    assert Sizes(store.index) == map[];
    var idle := Others({}, map[], {});
    r, evicted := store.Admit(key, 95, config, (_: nat) => now, x => x, (_: nat) => idle, (_: nat, _: nat) => idle, idle);
    assert store.index.Keys == {key};
    assert Sizes(store.index) == map[][key := 95];
    TotalPut(map[], key, 95);
  }

  method AddUp(sizes: map<Key, nat>) returns (sum: nat)
    ensures sum == Total(sizes)
  {
    var rest := sizes;
    sum := 0;
    while rest != map[]
      invariant sum + Total(rest) == Total(sizes)
      decreases |rest|
    {
      var k :| k in rest;
      TotalSplit(rest, k);
      SmallerWithout(rest, k);
      sum := sum + rest[k];
      rest := rest - {k};
    }
  }

  /** All rows of the index. */
  ghost predicate IsAll(all: seq<Entry>, index: map<Key, Record>) {
    && (forall i :: 0 <= i < |all| ==> all[i].key in index && all[i].record == index[all[i].key])
    && (forall i, j :: 0 <= i < j < |all| ==> all[i].key != all[j].key)
    && (forall k :: k in index ==> Entry(k, index[k]) in all)
    && |all| == |index|
  }

  /** Every row outside the batch comes after every row of the batch. */
  ghost predicate LeastOf(es: seq<Entry>, index: map<Key, Record>, order: (Entry, Entry) -> bool) {
    forall k, i :: k in index && 0 <= i < |es| && Entry(k, index[k]) !in es ==> order(es[i], Entry(k, index[k]))
  }

  method Rows(index: map<Key, Record>) returns (all: seq<Entry>)
    ensures IsAll(all, index)
  {
    var rest := index;
    all := [];
    while rest != map[]
      invariant rest.Keys <= index.Keys
      invariant forall i :: 0 <= i < |all| ==> all[i].key in index && all[i].key !in rest && all[i].record == index[all[i].key]
      invariant forall i, j :: 0 <= i < j < |all| ==> all[i].key != all[j].key
      invariant forall k :: k in index && k !in rest ==> Entry(k, index[k]) in all
      invariant |all| + |rest| == |index|
      decreases |rest|
    {
      var k :| k in rest;
      SmallerWithout(rest, k);
      all := all + [Entry(k, index[k])];
      rest := rest - {k};
    }
  }

  lemma AllSorted(all: seq<Entry>, sorted: seq<Entry>, index: map<Key, Record>)
    requires IsAll(all, index) && multiset(all) == multiset(sorted)
    ensures forall i :: 0 <= i < |sorted| ==> sorted[i].key in index && sorted[i].record == index[sorted[i].key]
    ensures forall i, j :: 0 <= i < j < |sorted| ==> sorted[i].key != sorted[j].key
    ensures forall k :: k in index ==> Entry(k, index[k]) in sorted
  {
    assert NoDup(all);
    PermutationNoDup(all, sorted);
    forall i | 0 <= i < |sorted| ensures sorted[i].key in index && sorted[i].record == index[sorted[i].key] {
      assert sorted[i] in multiset(all);
    }
    forall i, j | 0 <= i < j < |sorted| ensures sorted[i].key != sorted[j].key {
      assert sorted[i] != sorted[j];
    }
    forall k | k in index ensures Entry(k, index[k]) in sorted {
      assert Entry(k, index[k]) in multiset(all);
    }
  }

  lemma FirstRows(all: seq<Entry>, sorted: seq<Entry>, index: map<Key, Record>, order: (Entry, Entry) -> bool)
    requires IsAll(all, index) && multiset(all) == multiset(sorted) && |sorted| == |all| && Sorted(sorted, order)
    ensures var es := sorted[..Min(|sorted|, BATCH)];
            IsBatch(es, index) && Sorted(es, order) && LeastOf(es, index, order)
  {
    var es := sorted[..Min(|sorted|, BATCH)];
    AllSorted(all, sorted, index);
    forall k, i | k in index && 0 <= i < |es| && Entry(k, index[k]) !in es ensures order(es[i], Entry(k, index[k])) {
      var j :| 0 <= j < |sorted| && sorted[j] == Entry(k, index[k]);
    }
  }

  lemma LeastAfterSort(es: seq<Entry>, sorted: seq<Entry>, index: map<Key, Record>, order: (Entry, Entry) -> bool)
    requires LeastOf(es, index, order) && multiset(es) == multiset(sorted)
    ensures LeastOf(sorted, index, order)
  {
    forall k, i | k in index && 0 <= i < |sorted| && Entry(k, index[k]) !in sorted ensures order(sorted[i], Entry(k, index[k])) {
      assert sorted[i] in multiset(es);
      var j :| 0 <= j < |es| && es[j] == sorted[i];
      assert Entry(k, index[k]) !in multiset(sorted);
    }
  }

  lemma ChosenShrinks(es: seq<Entry>, seen: seq<bool>, admitted: Key, before: map<Key, Record>, after: map<Key, Record>)
    requires |seen| <= |es| && IsBatch(es, before) && after.Keys <= before.Keys
    requires forall e :: e in Chosen(es, seen, admitted) ==> e.key !in after
    ensures Chosen(es, seen, admitted) != [] ==> |after| < |before|
  {
    if Chosen(es, seen, admitted) != [] {
      var e := Chosen(es, seen, admitted)[0];
      ChosenFrom(es, seen, admitted);
      assert e in es[..|seen|];
      Shrinks(after, before, e.key);
    }
  }

  lemma Shrinks(part: map<Key, Record>, whole: map<Key, Record>, k: Key)
    requires part.Keys <= whole.Keys && k in whole && k !in part
    ensures |part| < |whole|
  {
    assert part.Keys <= whole.Keys - {k};
    SetSmaller(part.Keys, whole.Keys - {k});
  }

  lemma {:induction false} SetSmaller(a: set<Key>, b: set<Key>)
    requires a <= b
    ensures |a| <= |b|
    decreases a
  {
    if a != {} {
      var x :| x in a;
      SetSmaller(a - {x}, b - {x});
    }
  }
}
