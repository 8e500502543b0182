/** Node ordering: sort by capacity, promote a weighted winner, then perhaps an explorer. */
module Scheduling {
  import opened Collections

  datatype Policy = Balanced | SpeedFirst

  /** A node as the ordering sees it. `url` is the place of its URL in lexicographic order. */
  datatype Candidate = Candidate(
    id: nat,
    url: int,
    priority: int,
    capacity: real,
    latency: nat,
    success: real,
    active: nat,
    maxConcurrency: nat,
    measured: bool,
    recovered: bool)

  datatype Context = Context(sequence: nat, blobSize: nat, chunk: Option<(nat, nat)>)

  const MIN_CAPACITY: real := 256.0 * 1024.0

  function MaxR(a: real, b: real): real { if a >= b then a else b }

  function Reliability(success: real): real { if success < 0.05 then 0.05 else if success > 1.0 then 1.0 else success }

  function Load(c: Candidate): real { 1.0 + c.active as real / Max(c.maxConcurrency, 1) as real }

  function EffectiveCapacity(c: Candidate): real {
    Trusted(c) / Load(c)
  }

  function RequestBytes(context: Context): nat {
    match context.chunk
    case Some((start, end)) => SatAdd(SatSub(end, start), 1)
    case None => Max(context.blobSize, 1)
  }

  function ProjectedCost(c: Candidate, context: Context): real {
    c.latency as real / 1000.0 + TransferTime(c, RequestBytes(context) as real)
  }

  lemma Products(a: real, b: real, x: real, y: real)
    requires 0.0 <= a <= b && 0.0 <= x <= y
    ensures 0.0 <= a * x <= b * y
  {
    assert a * x <= b * x <= b * y;
  }

  lemma Quotients(a: real, b: real, x: real, y: real)
    requires 0.0 <= a <= b && 0.0 < y <= x
    ensures 0.0 <= a / x <= b / y
  {
    var p, q := a / x, b / y;
    assert p * x == a && q * y == b;
    assert a / y * y == a;
    Products(p, p, y, x);
    assert p * y <= a <= q * y;
    assert 0.0 <= p;
  }

  /** Bytes per second a node can be trusted with when idle: at least the floor, scaled by reliability twice. */
  function Trusted(c: Candidate): real { MaxR(c.capacity, MIN_CAPACITY) * (Reliability(c.success) * Reliability(c.success)) }

  /** No worse in any respect the capacity depends on. */
  predicate NoWorse(a: Candidate, b: Candidate) {
    && b.capacity <= a.capacity && b.success <= a.success
    && a.active <= b.active && b.maxConcurrency <= a.maxConcurrency
  }

  lemma LoadGrows(a: Candidate, b: Candidate)
    requires NoWorse(a, b)
    ensures 1.0 <= Load(a) <= Load(b)
  {
    Quotients(a.active as real, b.active as real, Max(a.maxConcurrency, 1) as real, Max(b.maxConcurrency, 1) as real);
  }

  lemma TrustedGrows(a: Candidate, b: Candidate)
    requires NoWorse(a, b)
    ensures 655.36 <= Trusted(b) <= Trusted(a)
  {
    var x, y := Reliability(a.success), Reliability(b.success);
    Products(0.05, y, 0.05, y);
    Products(y, x, y, x);
    Products(MaxR(b.capacity, MIN_CAPACITY), MaxR(a.capacity, MIN_CAPACITY), y * y, x * x);
    Products(MIN_CAPACITY, MaxR(b.capacity, MIN_CAPACITY), 0.05 * 0.05, y * y);
    assert MIN_CAPACITY * (0.05 * 0.05) == 655.36;
  }

  /** A node that is no worse has no less effective capacity. */
  lemma BetterNodesHaveCapacity(a: Candidate, b: Candidate)
    requires NoWorse(a, b)
    ensures 0.0 < EffectiveCapacity(b) <= EffectiveCapacity(a)
  {
    LoadGrows(a, b);
    TrustedGrows(a, b);
    Quotients(Trusted(b), Trusted(a), Load(b), Load(a));
    CapacityIsTrustPerLoad(a);
    CapacityIsTrustPerLoad(b);
  }

  lemma CapacityIsTrustPerLoad(c: Candidate)
    ensures 0.0 < EffectiveCapacity(c) == Trusted(c) / Load(c)
  {
    TrustedGrows(c, c);
    LoadGrows(c, c);
    PositiveQuotient(Trusted(c), Load(c));
  }

  lemma PositiveQuotient(t: real, l: real)
    requires 0.0 < t && 0.0 < l
    ensures 0.0 < t / l
  {
    assert t / l * l == t;
  }

  /** Seconds to move the bytes at a node's trusted speed and present load. */
  function TransferTime(c: Candidate, n: real): real { Load(c) * n / Trusted(c) }

  /** The projected cost is the latency in seconds, and the time to move the bytes. */
  lemma CostParts(c: Candidate, context: Context)
    ensures ProjectedCost(c, context) == c.latency as real / 1000.0 + TransferTime(c, RequestBytes(context) as real)
  {
    TrustedGrows(c, c);
  }

  /** Bytes move at the effective capacity. */
  lemma TransferAtCapacity(c: Candidate, n: real)
    ensures TransferTime(c, n) * EffectiveCapacity(c) == n
  {
    TrustedGrows(c, c);
    LoadGrows(c, c);
    CapacityIsTrustPerLoad(c);
    CancelOut(Trusted(c), Load(c), n);
  }

  lemma TransferNoLonger(a: Candidate, b: Candidate, n: real, m: real)
    requires NoWorse(a, b) && 0.0 <= n <= m
    ensures TransferTime(a, n) <= TransferTime(b, m)
  {
    BetterNodesHaveCapacity(a, b);
    TransferAtCapacity(a, n);
    TransferAtCapacity(b, m);
    NoLonger(TransferTime(a, n), EffectiveCapacity(a), n, TransferTime(b, m), EffectiveCapacity(b), m);
  }

  /** A node that is no worse, and no further away, costs no more; and smaller requests cost no more. */
  lemma BetterNodesCostLess(a: Candidate, b: Candidate, small: Context, large: Context)
    requires NoWorse(a, b) && a.latency <= b.latency && RequestBytes(small) <= RequestBytes(large)
    ensures ProjectedCost(a, small) <= ProjectedCost(b, large)
  {
    CostParts(a, small);
    CostParts(b, large);
    TransferNoLonger(a, b, RequestBytes(small) as real, RequestBytes(large) as real);
  }

  /** Fewer bytes at no less speed take no longer. */
  lemma NoLonger(t: real, speed: real, n: real, u: real, slow: real, m: real)
    requires t * speed == n && u * slow == m && 0.0 <= n <= m && 0.0 < slow <= speed
    ensures t <= u
  {
    assert 0.0 <= t;
    assert t * slow <= t * speed <= u * slow;
  }

  /** The effective capacity is the node's own when it is idle and reliable, and half of what is trusted when it is
      full. */
  lemma CapacityIdleAndFull(c: Candidate)
    ensures c.capacity >= MIN_CAPACITY && c.success >= 1.0 && c.active == 0 ==> EffectiveCapacity(c) == c.capacity
    ensures c.active == c.maxConcurrency > 0 ==> EffectiveCapacity(c) * 2.0 == Trusted(c)
  {
    IdleLoad(c);
    if c.active == c.maxConcurrency > 0 { FullLoad(c); }
  }

  lemma IdleLoad(c: Candidate)
    ensures c.active == 0 ==> Load(c) == 1.0
  {
  }

  lemma FullLoad(c: Candidate)
    requires c.active == c.maxConcurrency > 0
    ensures Load(c) == 2.0
  {
    var x := c.active as real;
    assert Max(c.maxConcurrency, 1) as real == x;
    assert x / x == 1.0;
  }

  lemma CancelOut(t: real, l: real, n: real)
    requires 0.0 < t && 0.0 < l
    ensures (l * n / t) * (t / l) == n
  {
    var p, q := l * n / t, t / l;
    assert p * t == l * n && q * l == t;
    assert p * q * l == p * t == n * l;
    Cancel(p * q, n, l);
  }

  lemma Cancel(x: real, y: real, l: real)
    requires 0.0 < l && x * l == y * l
    ensures x == y
  {
    assert (x - y) * l == 0.0;
  }

  predicate TieBreak(a: Candidate, b: Candidate) {
    a.priority < b.priority || (a.priority == b.priority && a.url <= b.url)
  }

  predicate ByCapacity(a: Candidate, b: Candidate) {
    EffectiveCapacity(a) > EffectiveCapacity(b) || (EffectiveCapacity(a) == EffectiveCapacity(b) && TieBreak(a, b))
  }

  /** Ordering by a precomputed cost, then by hash, priority and URL. */
  function ByCost(cost: Candidate -> real, unit: Candidate -> real): (Candidate, Candidate) -> bool {
    (a, b) => cost(a) < cost(b) || (cost(a) == cost(b) && (unit(a) < unit(b) || (unit(a) == unit(b) && TieBreak(a, b))))
  }

  // ------------------------------------------------------------------ choosing and promoting

  /** The first candidate of least cost. */
  function FirstMin(s: seq<Candidate>, cost: Candidate -> real): (i: nat)
    requires s != []
    ensures i < |s|
    ensures forall k :: 0 <= k < |s| ==> cost(s[i]) <= cost(s[k])
    ensures forall k :: 0 <= k < i ==> cost(s[i]) < cost(s[k])
  {
    var n := |s| - 1;
    if n == 0 then 0
    else
      var best := FirstMin(s[..n], cost);
      if cost(s[n]) < cost(s[best]) then n else best
  }

  predicate Explorer(c: Candidate) {
    c.active == 0 && 0 < c.maxConcurrency && (!c.measured || c.recovered)
  }

  /** The last explorer with the largest hash. */
  function BestExplorer(s: seq<Candidate>, unit: Candidate -> real): (r: Option<nat>)
    ensures r.None? <==> forall k :: 0 <= k < |s| ==> !Explorer(s[k])
    ensures r.Some? ==> r.value < |s| && Explorer(s[r.value])
                        && forall k :: 0 <= k < |s| && Explorer(s[k]) ==> unit(s[k]) <= unit(s[r.value])
  {
    if s == [] then None
    else
      var n := |s| - 1;
      var best := BestExplorer(s[..n], unit);
      if Explorer(s[n]) && (best.None? || unit(s[best.value]) <= unit(s[n])) then Some(n) else best
  }

  predicate AnyMeasured(s: seq<Candidate>) { exists k :: 0 <= k < |s| && s[k].measured }

  /** Rotating the first `i + 1` places right by one. */
  function Promote(s: seq<Candidate>, i: nat): (r: seq<Candidate>)
    requires i < |s|
    ensures |r| == |s| && r[0] == s[i]
    ensures forall k :: 1 <= k < |r| ==> r[k] == if k <= i then s[k - 1] else s[k]
  {
    [s[i]] + s[..i] + s[i + 1..]
  }

  lemma PromotePermutes(s: seq<Candidate>, i: nat)
    requires i < |s|
    ensures multiset(Promote(s, i)) == multiset(s)
  {
    assert s == s[..i] + [s[i]] + s[i + 1..];
  }

  /** `k` promoted places, then a tail sorted by `leq`. */
  ghost predicate SortedTail(s: seq<Candidate>, k: nat, leq: (Candidate, Candidate) -> bool) {
    forall i, j :: k <= i < j < |s| ==> leq(s[i], s[j])
  }

  /** A candidate that no other precedes is within the first `k + 1` places. */
  ghost predicate LeaderWithin(s: seq<Candidate>, k: nat, leq: (Candidate, Candidate) -> bool) {
    s != [] ==> exists i :: 0 <= i <= k && i < |s| && Leads(s, i, leq)
  }

  ghost predicate Leads(s: seq<Candidate>, i: nat, leq: (Candidate, Candidate) -> bool)
    requires i < |s|
  {
    forall j :: 0 <= j < |s| ==> s[j] == s[i] || leq(s[i], s[j])
  }

  ghost predicate Placed(s: seq<Candidate>, k: nat, leq: (Candidate, Candidate) -> bool) {
    SortedTail(s, k, leq) && LeaderWithin(s, k, leq)
  }

  /** One promotion disturbs one place. */
  lemma PromoteKeepsTail(s: seq<Candidate>, i: nat, k: nat, leq: (Candidate, Candidate) -> bool)
    requires i < |s| && Placed(s, k, leq)
    ensures Placed(Promote(s, i), k + 1, leq)
  {
    PromoteTail(s, i, k, leq);
    var l :| 0 <= l <= k && l < |s| && Leads(s, l, leq);
    var l' := if l == i then 0 else if l < i then l + 1 else l;
    var r := Promote(s, i);
    assert r[l'] == s[l];
    forall j | 0 <= j < |r| ensures r[j] == r[l'] || leq(r[l'], r[j]) {
      assert r[j] == s[if j == 0 then i else if j <= i then j - 1 else j];
    }
    assert Leads(r, l', leq);
  }

  lemma PromoteTail(s: seq<Candidate>, i: nat, k: nat, leq: (Candidate, Candidate) -> bool)
    requires i < |s| && SortedTail(s, k, leq)
    ensures SortedTail(Promote(s, i), k + 1, leq)
  {
    var r := Promote(s, i);
    forall x, y | k + 1 <= x < y < |r| ensures leq(r[x], r[y]) {
      assert r[x] == s[if x <= i then x - 1 else x] && r[y] == s[if y <= i then y - 1 else y];
    }
  }

  lemma SortedHasLeader(s: seq<Candidate>, leq: (Candidate, Candidate) -> bool)
    requires Sorted(s, leq)
    ensures Placed(s, 0, leq)
  {
    if s != [] { assert Leads(s, 0, leq); }
  }

  lemma CapacityOrders()
    ensures TotalPreorder(ByCapacity)
  {
  }

  lemma CostOrders(cost: Candidate -> real, unit: Candidate -> real)
    ensures TotalPreorder(ByCost(cost, unit))
  {
  }

  lemma MeasuredPermutes(s: seq<Candidate>, t: seq<Candidate>)
    requires multiset(s) == multiset(t)
    ensures AnyMeasured(s) <==> AnyMeasured(t)
    ensures forall c :: c in s <==> c in t
  {
    assert forall c :: c in s <==> c in multiset(s);
    assert forall c :: c in t <==> c in multiset(t);
    if AnyMeasured(s) {
      var k :| 0 <= k < |s| && s[k].measured;
      assert s[k] in t;
    }
    if AnyMeasured(t) {
      var k :| 0 <= k < |t| && t[k].measured;
      assert t[k] in s;
    }
  }

  /** One ticket in eight goes to an idle unknown or recovered node, once anything is measured. */
  predicate Exploring(s: seq<Candidate>, sequence: nat) {
    sequence % 8 == 0 && AnyMeasured(s) && exists k :: 0 <= k < |s| && Explorer(s[k])
  }

  ghost predicate LeadsExploration(s: seq<Candidate>, unit: Candidate -> real) {
    s != [] && Explorer(s[0]) && forall k :: 0 <= k < |s| && Explorer(s[k]) ==> unit(s[k]) <= unit(s[0])
  }

  method PromoteExploration(s: seq<Candidate>, sequence: nat, unit: Candidate -> real, ghost k: nat, ghost leq: (Candidate, Candidate) -> bool)
    returns (r: seq<Candidate>)
    ensures multiset(r) == multiset(s)
    ensures !Exploring(s, sequence) ==> r == s
    ensures Exploring(s, sequence) ==> LeadsExploration(r, unit)
    ensures Placed(s, k, leq) ==> Placed(r, if Exploring(s, sequence) then k + 1 else k, leq)
  {
    r := s;
    if sequence % 8 != 0 || !AnyMeasured(s) { return; }
    var selected := BestExplorer(s, unit);
    if selected.Some? {
      r := Promote(s, selected.value);
      PromotePermutes(s, selected.value);
      if Placed(s, k, leq) { PromoteKeepsTail(s, selected.value, k, leq); }
      assert Exploring(s, sequence);
    }
  }

  // ------------------------------------------------------------------ the two algorithms

  function LargestCapacity(s: seq<Candidate>): (m: real)
    ensures 1.0 <= m && forall k :: 0 <= k < |s| ==> EffectiveCapacity(s[k]) <= m
  {
    if s == [] then 1.0 else MaxR(EffectiveCapacity(s[|s| - 1]), LargestCapacity(s[..|s| - 1]))
  }

  /** The largest capacity is that of some candidate, or one byte per second. */
  lemma {:induction false} LargestIsSome(s: seq<Candidate>)
    ensures LargestCapacity(s) == 1.0 || exists k :: 0 <= k < |s| && EffectiveCapacity(s[k]) == LargestCapacity(s)
  {
    if s != [] && LargestCapacity(s) != EffectiveCapacity(s[|s| - 1]) {
      var n := |s| - 1;
      LargestIsSome(s[..n]);
      if k :| 0 <= k < n && EffectiveCapacity(s[..n][k]) == LargestCapacity(s[..n]) { assert s[..n][k] == s[k]; }
    }
  }

  /** The weighted rendezvous score of a candidate; the least score wins the ticket. */
  function Score(c: Candidate, largest: real, unit: Candidate -> real, ln: real -> real): real
    requires 1.0 <= largest
  {
    -ln(unit(c)) / MaxR(EffectiveCapacity(c) / largest, 0.001)
  }

  /** A node that is no worse and has no smaller hash has no larger score; `ln` is negative below one. */
  lemma BetterNodesScoreBetter(a: Candidate, b: Candidate, largest: real, unit: Candidate -> real, ln: real -> real)
    requires 1.0 <= largest && NoWorse(a, b) && ln(unit(b)) <= ln(unit(a)) <= 0.0
    ensures 0.0 <= Score(a, largest, unit, ln) <= Score(b, largest, unit, ln)
  {
    BetterNodesHaveCapacity(a, b);
    Quotients(EffectiveCapacity(b), EffectiveCapacity(a), largest, largest);
    Quotients(-ln(unit(a)), -ln(unit(b)), MaxR(EffectiveCapacity(a) / largest, 0.001), MaxR(EffectiveCapacity(b) / largest, 0.001));
  }

  /** Round-robin: rotation by the ticket number. */
  function Rotated(s: seq<Candidate>, sequence: nat): seq<Candidate> {
    if s == [] then [] else s[sequence % |s|..] + s[..sequence % |s|]
  }

  /** In the default algorithm, how many places are promoted ahead of the sorted tail. */
  function Promotions(s: seq<Candidate>, sequence: nat, policy: Policy): nat {
    (if policy.Balanced? then 1 else 0) + (if Exploring(s, sequence) then 1 else 0)
  }

  /** The default algorithm. */
  method OrderCurrent(s: seq<Candidate>, sequence: nat, policy: Policy, unit: Candidate -> real, ln: real -> real)
    returns (r: seq<Candidate>)
    ensures multiset(r) == multiset(s)
    ensures policy.Balanced? && !AnyMeasured(s) ==> r == Rotated(s, sequence)
    ensures policy.SpeedFirst? || AnyMeasured(s) ==>
              Placed(r, Promotions(s, sequence, policy), ByCapacity)
    ensures Exploring(s, sequence) ==> LeadsExploration(r, unit)
    ensures policy.Balanced? && AnyMeasured(s) && !Exploring(s, sequence) ==>
              && r != []
              && forall k :: 0 <= k < |r| ==>
                   Score(r[0], LargestCapacity(SortBy(s, ByCapacity)), unit, ln) <= Score(r[k], LargestCapacity(SortBy(s, ByCapacity)), unit, ln)
  {
    r := s;
    ghost var places: nat := 0;
    if policy.Balanced? && !AnyMeasured(s) {
      if s != [] {
        var offset := sequence % |s|;
        r := r[offset..] + r[..offset];
        assert s == s[..offset] + s[offset..];
      }
    } else {
      CapacityOrders();
      SortCorrect(s, ByCapacity);
      r := SortBy(s, ByCapacity);
      SortedHasLeader(r, ByCapacity);
      if policy.Balanced? {
        var largest := LargestCapacity(r);
        r := PromoteWinner(r, c => Score(c, largest, unit, ln));
        places := 1;
      }
    }
    MeasuredPermutes(s, r);
    ExploringPermutes(s, r, sequence);
    r := PromoteExploration(r, sequence, unit, places, ByCapacity);
  }

  lemma ExploringPermutes(s: seq<Candidate>, t: seq<Candidate>, sequence: nat)
    requires multiset(s) == multiset(t)
    ensures Exploring(s, sequence) <==> Exploring(t, sequence)
  {
    MeasuredPermutes(s, t);
    if exists k :: 0 <= k < |s| && Explorer(s[k]) {
      var k :| 0 <= k < |s| && Explorer(s[k]);
      assert s[k] in t;
    }
    if exists k :: 0 <= k < |t| && Explorer(t[k]) {
      var k :| 0 <= k < |t| && Explorer(t[k]);
      assert t[k] in s;
    }
  }

  method PromoteWinner(s: seq<Candidate>, score: Candidate -> real) returns (r: seq<Candidate>)
    requires Placed(s, 0, ByCapacity)
    ensures multiset(r) == multiset(s)
    ensures Placed(r, 1, ByCapacity)
    ensures forall k :: 0 <= k < |r| ==> score(r[0]) <= score(r[k])
  {
    r := s;
    if s != [] {
      var selected := FirstMin(s, score);
      r := Promote(s, selected);
      PromotePermutes(s, selected);
      PromoteKeepsTail(s, selected, 0, ByCapacity);
    }
  }

  /** The latency-aware alternative. */
  method OrderProjected(s: seq<Candidate>, context: Context, unit: Candidate -> real) returns (r: seq<Candidate>)
    ensures multiset(r) == multiset(s)
    ensures var leq := ByCost(c => ProjectedCost(c, context), unit);
            Placed(r, if Exploring(s, context.sequence) then 1 else 0, leq)
    ensures Exploring(s, context.sequence) ==> LeadsExploration(r, unit)
  {
    var leq := ByCost(c => ProjectedCost(c, context), unit);
    CostOrders(c => ProjectedCost(c, context), unit);
    SortCorrect(s, leq);
    r := SortBy(s, leq);
    SortedHasLeader(r, leq);
    ExploringPermutes(s, r, context.sequence);
    r := PromoteExploration(r, context.sequence, unit, 0, leq);
  }

  /** Before anything is measured the ticket alone decides: place `k` goes to the node `k` steps on from
      the ticket's residue, so a node leads exactly for the tickets congruent to its index. */
  lemma RotationByResidue(s: seq<Candidate>, ticket: nat, k: nat)
    requires k < |s|
    ensures |Rotated(s, ticket)| == |s| && Rotated(s, ticket)[k] == s[(ticket + k) % |s|]
    ensures NoDup(s) ==> (Rotated(s, ticket)[0] == s[k] <==> ticket % |s| == k)
  {
    var n, o := |s|, ticket % |s|;
    SlotOf(ticket, n, k);
    assert Rotated(s, ticket)[k] == if k < n - o then s[o + k] else s[k - (n - o)];
    if NoDup(s) && o != k { NoDupAt(s, o, k); }
  }

  lemma NoDupAt(s: seq<Candidate>, a: nat, b: nat)
    requires NoDup(s) && a < |s| && b < |s| && a != b
    ensures s[a] != s[b]
  {
    if b < a { assert s[b] != s[a]; }
  }

  lemma SlotOf(first: nat, n: nat, d: nat)
    requires 0 < n && d < n
    ensures (first + d) % n == if first % n + d < n then first % n + d else first % n + d - n
  {
    var q := first / n;
    assert first + d == q * n + (first % n + d);
    if first % n + d < n {
      Remainder(first + d, n, q, first % n + d);
    } else {
      assert (q + 1) * n == q * n + n;
      Remainder(first + d, n, q + 1, first % n + d - n);
    }
  }

  lemma Remainder(a: nat, n: nat, q: nat, r: nat)
    requires 0 < n && r < n && a == q * n + r
    ensures a % n == r
  {
    var q', r' := a / n, a % n;
    assert a == q' * n + r';
    Scale(q' + 1, q, n);
    Scale(q + 1, q', n);
    assert (q' + 1) * n == q' * n + n && (q + 1) * n == q * n + n;
  }

  lemma Scale(x: nat, y: nat, n: nat)
    ensures x <= y ==> x * n <= y * n
  {
  }

  // ------------------------------------------------------------------ eligibility

  datatype View = View(candidate: Candidate, nodeEnabled: bool, routeEnabled: bool, cooling: bool)

  function Enabled(nodes: seq<View>): (r: seq<View>)
    ensures forall v :: v in r <==> v in nodes && v.nodeEnabled && v.routeEnabled
  {
    if nodes == [] then []
    else (if nodes[0].nodeEnabled && nodes[0].routeEnabled then [nodes[0]] else []) + Enabled(nodes[1..])
  }

  function Ready(nodes: seq<View>): (r: seq<View>)
    ensures forall v :: v in r <==> v in nodes && !v.cooling
  {
    if nodes == [] then [] else (if !nodes[0].cooling then [nodes[0]] else []) + Ready(nodes[1..])
  }

  function Eligible(nodes: seq<View>): seq<View> {
    var ready := Ready(Enabled(nodes));
    if ready != [] then ready else Enabled(nodes)
  }

  function Candidates(nodes: seq<View>): (r: seq<Candidate>)
    ensures |r| == |nodes| && forall k :: 0 <= k < |r| ==> r[k] == nodes[k].candidate
  {
    seq(|nodes|, k requires 0 <= k < |nodes| => nodes[k].candidate)
  }

  /** A node is ordered exactly when it is enabled and, unless every enabled node is cooling, not cooling. */
  lemma EligibleExactly(nodes: seq<View>, v: View)
    ensures v in Eligible(nodes) <==>
            && v in nodes && v.nodeEnabled && v.routeEnabled
            && (!v.cooling || forall w :: w in nodes && w.nodeEnabled && w.routeEnabled ==> w.cooling)
  {
    var ready := Ready(Enabled(nodes));
    if ready != [] { assert ready[0] in ready; }
  }

  datatype Algorithm = CurrentBalanced | ProjectedCompletion

  /** The order handed to the executor, by whichever algorithm is configured: a permutation of the
      eligible nodes, in which an explorer leads when one is due, and behind the promoted nodes the
      algorithm's own order holds. */
  method OrderNodes(nodes: seq<View>, algorithm: Algorithm, context: Context, policy: Policy, unit: Candidate -> real, ln: real -> real)
    returns (r: seq<Candidate>)
    ensures multiset(r) == multiset(Candidates(Eligible(nodes)))
    ensures forall v :: v in nodes && v.nodeEnabled && v.routeEnabled && !v.cooling ==> v.candidate in r
    ensures r == [] <==> forall v :: v in nodes ==> !(v.nodeEnabled && v.routeEnabled)
    ensures Exploring(Candidates(Eligible(nodes)), context.sequence) ==> LeadsExploration(r, unit)
    ensures algorithm.ProjectedCompletion? ==>
              Placed(r, if Exploring(Candidates(Eligible(nodes)), context.sequence) then 1 else 0,
                     ByCost(c => ProjectedCost(c, context), unit))
    ensures algorithm.CurrentBalanced? && (policy.SpeedFirst? || AnyMeasured(Candidates(Eligible(nodes)))) ==>
              Placed(r, Promotions(Candidates(Eligible(nodes)), context.sequence, policy), ByCapacity)
  {
    var es := Eligible(nodes);
    match algorithm {
      case CurrentBalanced => r := OrderCurrent(Candidates(es), context.sequence, policy, unit, ln);
      case ProjectedCompletion => r := OrderProjected(Candidates(es), context, unit);
    }
    forall v | v in nodes && v.nodeEnabled && v.routeEnabled && !v.cooling ensures v.candidate in r {
      EligibleExactly(nodes, v);
      var k :| 0 <= k < |es| && es[k] == v;
      assert Candidates(es)[k] in multiset(r);
    }
    assert |multiset(r)| == |r| == |es|;
    if es != [] { assert es[0] in es; }
  }
}
