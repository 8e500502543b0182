/** The download planner: one whole request to the quickest node, or ranges from several. */
module Planner {
  import opened Collections
  import opened Chunking
  import opened ChunkSizes

  datatype Node = Node(
    url: string,
    supportsRange: bool,
    maxConcurrency: nat,
    throughput: Option<nat>,
    latency: Option<nat>,
    successRate: real,
    cooling: bool)

  datatype Config = Config(
    smallBlob: nat,
    minChunk: nat,
    maxChunk: nat,
    minBenefit: real,
    maxConcurrent: nat,
    allowUnmeasured: bool)
  {
    predicate Usable() {
      0 < minChunk <= maxChunk && 0 < maxConcurrent && 1.0 <= minBenefit
    }
  }

  datatype Strategy =
    | CacheHit
    | SingleRequest(url: string)
    | Chunked(chunkSize: nat, chunks: nat, concurrency: nat)

  datatype PlanResult = Planned(strategy: Strategy) | NoUsableNodes | InvalidConfiguration

  predicate UsableNode(n: Node) {
    !n.cooling && 0 < n.maxConcurrency && 0.0 < n.successRate && n.url != ""
  }

  function Filter(s: seq<Node>, p: Node -> bool): (r: seq<Node>)
    ensures forall n :: n in r <==> n in s && p(n)
  {
    if s == [] then [] else (if p(s[0]) then [s[0]] else []) + Filter(s[1..], p)
  }

  function Capacity(s: seq<Node>): nat {
    if s == [] then 0 else s[0].maxConcurrency + Capacity(s[1..])
  }

  /** Milliseconds for one whole request; an unmeasured node counts as 10 MiB/s and 100 ms. */
  function EstimatedTime(size: nat, n: Node): real {
    n.latency.GetOr(100) as real + size as real * 1000.0 / Max(n.throughput.GetOr(10 * MIB), 1) as real
  }

  lemma Quotients(a: real, b: real, x: real, y: real)
    requires 0.0 <= a <= b && 0.0 < y <= x
    ensures 0.0 <= a / x <= b / y
  {
    var p, q := a / x, b / y;
    assert p * x == a && q * y == b;
    assert 0.0 <= p;
    assert p * y <= p * x;
    assert p * y <= q * y;
  }

  /** The estimate is the latency and the time to move the bytes; more bytes, a further or a slower node never
      shorten it. */
  lemma EstimateGrows(small: nat, large: nat, a: Node, b: Node)
    requires small <= large
    requires a.latency.GetOr(100) <= b.latency.GetOr(100) && b.throughput.GetOr(10 * MIB) <= a.throughput.GetOr(10 * MIB)
    ensures EstimatedTime(small, a) <= EstimatedTime(large, b)
  {
    Quotients(small as real * 1000.0, large as real * 1000.0,
              Max(a.throughput.GetOr(10 * MIB), 1) as real, Max(b.throughput.GetOr(10 * MIB), 1) as real);
  }

  /** A node that moves `size` bytes in a second takes its latency and a second. */
  lemma EstimateExactly(size: nat, n: Node)
    requires 0 < size
    ensures n.throughput == Some(size) ==> EstimatedTime(size, n) == n.latency.GetOr(100) as real + 1000.0
    ensures n.throughput.None? ==> EstimatedTime(10 * MIB, n) == n.latency.GetOr(100) as real + 1000.0
  {
    var x := size as real;
    assert x * 1000.0 / x == 1000.0;
  }

  /** The first node with the least estimated time. */
  function Quickest(size: nat, s: seq<Node>): (best: Node)
    requires s != []
    ensures best in s && forall n :: n in s ==> EstimatedTime(size, best) <= EstimatedTime(size, n)
    ensures s[0] != best ==> EstimatedTime(size, best) < EstimatedTime(size, s[0])
  {
    if |s| == 1 then s[0]
    else
      var rest := Quickest(size, s[1..]);
      if EstimatedTime(size, s[0]) <= EstimatedTime(size, rest) then s[0] else rest
  }

  // ------------------------------------------------------------------ the parallel estimate

  function Throughput(n: Node): nat { n.throughput.GetOr(0) }

  function TotalThroughput(s: seq<Node>): nat {
    if s == [] then 0 else Throughput(s[0]) + TotalThroughput(s[1..])
  }

  function WorstLatency(s: seq<Node>): (w: nat)
    ensures forall n :: n in s ==> n.latency.GetOr(0) <= w
  {
    if s == [] then 0 else Max(s[0].latency.GetOr(0), WorstLatency(s[1..]))
  }

  /** Fastest first; equal throughputs by latency. */
  function FasterFirst(a: Node, b: Node): bool {
    Throughput(a) > Throughput(b) || (Throughput(a) == Throughput(b) && a.latency.GetOr(0) <= b.latency.GetOr(0))
  }

  /** The range sources the estimate keeps busy: sort, then truncate. */
  function Active(nodes: seq<Node>, k: nat): seq<Node> {
    var sorted := SortBy(nodes, FasterFirst);
    sorted[..Min(k, |sorted|)]
  }

  ghost predicate Descending(t: seq<Node>) {
    forall i, j :: 0 <= i < j < |t| ==> Throughput(t[i]) >= Throughput(t[j])
  }

  lemma HeadIsFastest(t: seq<Node>, n: Node)
    requires Descending(t) && n in t
    ensures Throughput(n) <= Throughput(t[0])
  {
    var i :| 0 <= i < |t| && t[i] == n;
    assert i > 0 ==> Throughput(t[0]) >= Throughput(t[i]);
  }

  lemma TailDescends(t: seq<Node>)
    requires Descending(t) && t != []
    ensures Descending(t[1..])
  {
  }

  lemma {:induction false} FrontIsBest(t: seq<Node>, c: seq<Node>, k: nat)
    requires Descending(t) && multiset(c) <= multiset(t) && |c| <= k <= |t|
    ensures TotalThroughput(c) <= TotalThroughput(t[..k])
    decreases k
  {
    if c != [] {
      var i := if t[0] in c then Index(c, t[0]) else 0;
      var rest := c[..i] + c[i + 1..];
      SplitOne(c, i);
      assert c[i] in multiset(c);
      HeadIsFastest(t, c[i]);
      RestFits(t, c, i);
      TailDescends(t);
      FrontIsBest(t[1..], rest, k - 1);
      assert t[1..][..k - 1] == t[..k][1..];
    }
  }

  function Index(c: seq<Node>, n: Node): (i: nat)
    requires n in c
    ensures i < |c| && c[i] == n
  {
    if c[0] == n then 0 else 1 + Index(c[1..], n)
  }

  lemma RestFits(t: seq<Node>, c: seq<Node>, i: nat)
    requires i < |c| && t != [] && multiset(c) <= multiset(t) && (t[0] in c ==> c[i] == t[0])
    ensures multiset(c[..i] + c[i + 1..]) <= multiset(t[1..])
  {
    var rest := c[..i] + c[i + 1..];
    assert c == c[..i] + [c[i]] + c[i + 1..];
    assert multiset(c) == multiset(rest) + multiset{c[i]};
    assert t == [t[0]] + t[1..];
    assert multiset(t) == multiset{t[0]} + multiset(t[1..]);
    TakeOne(multiset(rest), c[i], multiset(t[1..]), t[0]);
  }

  lemma TakeOne(a: multiset<Node>, x: Node, b: multiset<Node>, y: Node)
    requires a + multiset{x} <= b + multiset{y} && (y in a ==> x == y)
    ensures a <= b
  {
    forall z | z in a ensures a[z] <= b[z] {
      assert (a + multiset{x})[z] <= (b + multiset{y})[z];
    }
  }

  lemma {:induction false} SplitOne(c: seq<Node>, i: nat)
    requires i < |c|
    ensures TotalThroughput(c) == Throughput(c[i]) + TotalThroughput(c[..i] + c[i + 1..])
  {
    if i == 0 {
      assert c[..0] + c[1..] == c[1..];
    } else {
      SplitOne(c[1..], i - 1);
      assert (c[..i] + c[i + 1..])[1..] == c[1..][..i - 1] + c[1..][i..];
    }
  }

  /** The estimate's sources have the largest aggregate throughput among all choices of that many. */
  lemma ActiveIsBest(nodes: seq<Node>, choice: seq<Node>, k: nat)
    requires multiset(choice) <= multiset(nodes) && |choice| <= k
    ensures multiset(Active(nodes, k)) <= multiset(nodes) && |Active(nodes, k)| == Min(k, |nodes|)
    ensures TotalThroughput(choice) <= TotalThroughput(Active(nodes, k))
  {
    ActiveFits(nodes, k);
    SortedByThroughput(nodes);
    PartIsShorter(choice, nodes);
    FrontIsBest(SortBy(nodes, FasterFirst), choice, Min(k, |nodes|));
  }

  lemma ActiveFits(nodes: seq<Node>, k: nat)
    ensures multiset(Active(nodes, k)) <= multiset(nodes) && |Active(nodes, k)| == Min(k, |nodes|)
  {
    SortedByThroughput(nodes);
    FrontFits(SortBy(nodes, FasterFirst), Min(k, |nodes|));
  }

  lemma FrontFits(t: seq<Node>, n: nat)
    requires n <= |t|
    ensures multiset(t[..n]) <= multiset(t)
  {
    assert t == t[..n] + t[n..];
  }

  lemma SortedByThroughput(nodes: seq<Node>)
    ensures var t := SortBy(nodes, FasterFirst); Descending(t) && multiset(t) == multiset(nodes) && |t| == |nodes|
  {
    SortCorrect(nodes, FasterFirst);
    var t := SortBy(nodes, FasterFirst);
    assert forall i, j :: 0 <= i < j < |t| ==> FasterFirst(t[i], t[j]);
  }

  lemma PartIsShorter(part: seq<Node>, whole: seq<Node>)
    requires multiset(part) <= multiset(whole)
    ensures |part| <= |whole|
  {
    assert |multiset(part)| == |part| && |multiset(whole)| == |whole|;
    assert multiset(whole) == multiset(part) + (multiset(whole) - multiset(part));
  }

  /** How many times faster the parallel estimate is than a whole request taking `single`. */
  function EstimatedBenefit(size: nat, single: real, nodes: seq<Node>, chunk: nat, requested: nat): Option<real>
    requires 0 < size && 0 < chunk && 0 < requested
  {
    if exists n :: n in nodes && (n.throughput.None? || n.latency.None?) then None
    else
      var k := Min(requested, DivCeil(size, chunk));
      if TotalThroughput(Active(nodes, k)) == 0 then None
      else
        Some(single / Floored(ParallelTime(size, nodes, chunk, k)))
  }

  predicate Short(benefit: Option<real>, least: real) { benefit.None? || benefit.value < least }

  /** Waves of requests, each paying the worst latency, plus the transfer at aggregate throughput. */
  function ParallelTime(size: nat, nodes: seq<Node>, chunk: nat, k: nat): real
    requires 0 < chunk && 0 < k && 0 < TotalThroughput(Active(nodes, k))
  {
    Starting(size, nodes, chunk, k)
    + Moving(size, TotalThroughput(Active(nodes, k)))
  }

  /** The worst latency is that of some source. */
  lemma {:induction false} WorstIsSome(s: seq<Node>)
    requires s != []
    ensures exists n :: n in s && n.latency.GetOr(0) == WorstLatency(s)
  {
    if |s| > 1 {
      WorstIsSome(s[1..]);
      var n :| n in s[1..] && n.latency.GetOr(0) == WorstLatency(s[1..]);
      assert n in s && s[0] in s;
    } else {
      assert s[0] in s && WorstLatency(s[1..]) == 0;
    }
  }

  /** Waves of at most `k` requests, as few as cover all chunks. */
  function Waves(size: nat, chunk: nat, k: nat): nat
    requires 0 < chunk && 0 < k
  {
    DivCeil(DivCeil(size, chunk), k)
  }

  /** No fewer waves would do, and no more are counted. */
  lemma WavesExactly(size: nat, chunk: nat, k: nat, chunks: nat, waves: nat)
    requires 0 < chunk && 0 < k
    ensures IsCeil(size, chunk, chunks) && IsCeil(chunks, k, waves) ==> Waves(size, chunk, k) == waves
  {
    DivCeilIsCeil(size, chunk);
    DivCeilIsCeil(DivCeil(size, chunk), k);
    if IsCeil(size, chunk, chunks) && IsCeil(chunks, k, waves) {
      CeilUnique(size, chunk, chunks, DivCeil(size, chunk));
      CeilUnique(chunks, k, waves, DivCeil(chunks, k));
    }
  }

  /** Milliseconds to move the bytes at a speed. */
  function Moving(size: nat, speed: nat): real
    requires 0 < speed
  {
    size as real * 1000.0 / speed as real
  }

  lemma MovingExactly(size: nat, speed: nat)
    requires 0 < speed
    ensures Moving(size, speed) * (speed as real) == size as real * 1000.0
  {
  }

  /** Milliseconds spent on starting requests: every wave is as slow as the slowest source kept busy. */
  function Starting(size: nat, nodes: seq<Node>, chunk: nat, k: nat): real
    requires 0 < chunk && 0 < k
  {
    Waves(size, chunk, k) as real * WorstLatency(Active(nodes, k)) as real
  }

  /** Larger blobs never move in less time. */
  lemma MovingGrows(small: nat, large: nat, speed: nat)
    requires small <= large && 0 < speed
    ensures Moving(small, speed) <= Moving(large, speed)
  {
    Quotients(small as real * 1000.0, large as real * 1000.0, speed as real, speed as real);
  }

  lemma CeilGrows(a: nat, b: nat, n: nat)
    requires a <= b && 0 < n
    ensures DivCeil(a, n) <= DivCeil(b, n)
  {
    DivCeilIsCeil(a, n);
    DivCeilIsCeil(b, n);
    MulMonotone(DivCeil(b, n), DivCeil(a, n) - 1, n);
  }

  /** Larger blobs never need fewer waves. */
  lemma WavesGrow(small: nat, large: nat, chunk: nat, k: nat)
    requires 0 < chunk && 0 < k && small <= large
    ensures Waves(small, chunk, k) <= Waves(large, chunk, k)
  {
    CeilGrows(small, large, chunk);
    CeilGrows(DivCeil(small, chunk), DivCeil(large, chunk), k);
  }

  /** For a single source and a single chunk the parallel estimate is that of one whole request. */
  lemma OneChunkIsOneRequest(size: nat, n: Node, chunk: nat)
    requires 0 < size <= chunk && 0 < Throughput(n) && n.latency.Some?
    ensures Active([n], 1) == [n] && TotalThroughput([n]) == Throughput(n)
    ensures ParallelTime(size, [n], chunk, 1) == EstimatedTime(size, n)
  {
    assert SortBy([n], FasterFirst) == [n] by { SortOne(n); }
    DivCeilIsCeil(size, chunk);
    CeilUnique(size, chunk, DivCeil(size, chunk), 1);
    assert DivCeil(1, 1) == 1;
    assert WorstLatency([n]) == n.latency.value;
  }

  lemma SortOne(n: Node)
    ensures SortBy([n], FasterFirst) == [n]
  {
    SortCorrect([n], FasterFirst);
    var t := SortBy([n], FasterFirst);
    assert |t| == |multiset(t)| == 1 && t[0] in multiset([n]);
  }

  // ------------------------------------------------------------------ the plan

  function Usable(nodes: seq<Node>): seq<Node> { Filter(nodes, UsableNode) }

  function Ranges(nodes: seq<Node>): seq<Node> { Filter(Usable(nodes), (n: Node) => n.supportsRange) }

  function Requested(config: Config, nodes: seq<Node>): nat { Min(Capacity(Ranges(nodes)), config.maxConcurrent) }

  function ChunkSize(config: Config, size: nat, nodes: seq<Node>): (c: nat)
    requires config.Usable()
    ensures 0 < c
  {
    PlannerChunkSize(size, Requested(config, nodes), config.minChunk, config.maxChunk)
  }

  function Plan(config: Config, size: nat, cached: bool, nodes: seq<Node>): PlanResult {
    if cached then Planned(CacheHit)
    else if size == 0 || !config.Usable() then InvalidConfiguration
    else if Usable(nodes) == [] then NoUsableNodes
    else
      var best, ranges := Quickest(size, Usable(nodes)), Ranges(nodes);
      var requested := Requested(config, nodes);
      if size < config.smallBlob || ranges == [] || requested < 2 then Planned(SingleRequest(best.url))
      else
        var chunk := ChunkSize(config, size, nodes);
        var benefit := EstimatedBenefit(size, EstimatedTime(size, best), ranges, chunk, requested);
        if (|ranges| > 1 || !best.supportsRange) && !config.allowUnmeasured
           && Short(benefit, config.minBenefit)
        then Planned(SingleRequest(best.url))
        else Planned(Chunked(chunk, DivCeil(size, chunk), requested))
  }

  /** A whole request always goes to a usable node that no usable node beats. */
  lemma SingleGoesToQuickest(config: Config, size: nat, nodes: seq<Node>)
    requires var p := Plan(config, size, false, nodes); p.Planned? && p.strategy.SingleRequest?
    ensures exists n :: n in nodes && UsableNode(n) && n.url == Plan(config, size, false, nodes).strategy.url
                        && forall m :: m in nodes && UsableNode(m) ==> EstimatedTime(size, n) <= EstimatedTime(size, m)
  {
    var best := Quickest(size, Usable(nodes));
    assert best in nodes && UsableNode(best);
    forall m | m in nodes && UsableNode(m) ensures EstimatedTime(size, best) <= EstimatedTime(size, m) {
      assert m in Usable(nodes);
    }
  }

  /** A chunked plan is executable: its concurrency is within what the usable range sources offer,
      its size is within bounds, and its chunk count is the length of every split at that size. */
  lemma ChunkedIsExecutable(config: Config, size: nat, nodes: seq<Node>, cs: seq<Chunk>)
    requires var p := Plan(config, size, false, nodes); p.Planned? && p.strategy.Chunked?
    ensures var Chunked(chunk, chunks, concurrency) := Plan(config, size, false, nodes).strategy;
            && 2 <= concurrency <= Min(config.maxConcurrent, Capacity(Ranges(nodes)))
            && config.minChunk <= chunk <= config.maxChunk && config.smallBlob <= size
            && (Tiles(cs, size) && Sized(cs, chunk) ==> |cs| == chunks)
            && exists n :: n in nodes && UsableNode(n) && n.supportsRange
  {
    var Chunked(chunk, chunks, concurrency) := Plan(config, size, false, nodes).strategy;
    if Tiles(cs, size) && Sized(cs, chunk) { SplitLength(cs, size, chunk); }
    assert Ranges(nodes)[0] in Ranges(nodes);
    assert Ranges(nodes)[0] in Usable(nodes);
  }

  lemma RatioAtLeast(t: real, m: real, b: real)
    requires 0.0 < m
    ensures t / m < b <==> t < b * m
  {
    assert t / m * m == t;
    if t / m < b { assert t / m * m < b * m; }
    if b <= t / m { assert b * m <= t / m * m; }
  }

  /** Every source has been observed, and some source moves bytes. */
  ghost predicate Measured(nodes: seq<Node>) {
    && (forall n :: n in nodes ==> n.throughput.Some? && n.latency.Some?)
    && (exists n :: n in nodes && 0 < Throughput(n))
  }

  /** The parallel estimate as the benefit uses it: never below a millisecond. */
  function Floored(t: real): real { if t >= 1.0 then t else 1.0 }

  lemma {:induction false} NothingMoves(s: seq<Node>)
    requires forall n :: n in s ==> Throughput(n) == 0
    ensures TotalThroughput(s) == 0
  {
    if s != [] { NothingMoves(s[1..]); }
  }

  /** The sources kept busy move bytes exactly when some source does. */
  lemma ActiveMoves(nodes: seq<Node>, k: nat)
    requires 0 < k
    ensures 0 < TotalThroughput(Active(nodes, k)) <==> exists n :: n in nodes && 0 < Throughput(n)
  {
    ActiveFits(nodes, k);
    if n :| n in nodes && 0 < Throughput(n) {
      assert multiset([n]) <= multiset(nodes) by { assert n in multiset(nodes); }
      ActiveIsBest(nodes, [n], k);
      assert TotalThroughput([n]) == Throughput(n);
    } else {
      forall n | n in Active(nodes, k) ensures Throughput(n) == 0 {
        assert n in multiset(Active(nodes, k));
        assert n in multiset(nodes);
      }
      NothingMoves(Active(nodes, k));
    }
  }

  /** The least time a whole request must take for ranges to be worth their while: the parallel
      estimate times the configured factor. */
  ghost function Bar(size: nat, nodes: seq<Node>, chunk: nat, requested: nat, factor: real): real
    requires 0 < size && 0 < chunk && 0 < requested && Measured(nodes)
  {
    var k := Min(requested, DivCeil(size, chunk));
    DivCeilIsCeil(size, chunk);
    ActiveMoves(nodes, k);
    factor * Floored(ParallelTime(size, nodes, chunk, k))
  }

  lemma BenefitOfMeasured(size: nat, single: real, nodes: seq<Node>, chunk: nat, requested: nat, b: real)
    requires 0 < size && 0 < chunk && 0 < requested
    ensures var v := EstimatedBenefit(size, single, nodes, chunk, requested);
            !Short(v, b) <==> Measured(nodes) && Bar(size, nodes, chunk, requested, b) <= single
  {
    DivCeilIsCeil(size, chunk);
    var k := Min(requested, DivCeil(size, chunk));
    ActiveMoves(nodes, k);
    if Measured(nodes) { RatioAtLeast(single, Floored(ParallelTime(size, nodes, chunk, k)), b); }
  }

  /** A bound holds for every usable node exactly when it holds for the quickest. */
  lemma QuickestBounds(size: nat, nodes: seq<Node>, bound: real)
    requires Usable(nodes) != []
    ensures bound <= EstimatedTime(size, Quickest(size, Usable(nodes))) <==>
            forall n :: n in nodes && UsableNode(n) ==> bound <= EstimatedTime(size, n)
  {
    var best := Quickest(size, Usable(nodes));
    assert best in nodes && UsableNode(best);
    forall m | m in nodes && UsableNode(m) ensures EstimatedTime(size, best) <= EstimatedTime(size, m) {
      assert m in Usable(nodes);
    }
  }

  /** The blob is large enough, and the range sources offer at least two connections. */
  predicate InPlay(config: Config, size: nat, nodes: seq<Node>) {
    config.smallBlob <= size && Ranges(nodes) != [] && 2 <= Requested(config, nodes)
  }

  /** By estimate, ranges beat a whole request to every usable node by the configured factor. */
  ghost predicate Pays(config: Config, size: nat, nodes: seq<Node>)
    requires 0 < size && config.Usable() && 0 < Requested(config, nodes)
  {
    && Measured(Ranges(nodes))
    && forall n :: n in nodes && UsableNode(n) ==>
         Bar(size, Ranges(nodes), ChunkSize(config, size, nodes), Requested(config, nodes), config.minBenefit) <= EstimatedTime(size, n)
  }

  lemma BenefitPays(config: Config, size: nat, nodes: seq<Node>)
    requires 0 < size && config.Usable() && 0 < Requested(config, nodes) && Usable(nodes) != []
    ensures var single := EstimatedTime(size, Quickest(size, Usable(nodes)));
            !Short(EstimatedBenefit(size, single, Ranges(nodes), ChunkSize(config, size, nodes), Requested(config, nodes)), config.minBenefit)
            <==> Pays(config, size, nodes)
  {
    var single := EstimatedTime(size, Quickest(size, Usable(nodes)));
    BenefitOfMeasured(size, single, Ranges(nodes), ChunkSize(config, size, nodes), Requested(config, nodes), config.minBenefit);
    if Measured(Ranges(nodes)) {
      QuickestBounds(size, nodes, Bar(size, Ranges(nodes), ChunkSize(config, size, nodes), Requested(config, nodes), config.minBenefit));
    }
  }

  lemma UsableExactly(nodes: seq<Node>)
    ensures Usable(nodes) != [] <==> exists n :: n in nodes && UsableNode(n)
  {
    if Usable(nodes) != [] { assert Usable(nodes)[0] in Usable(nodes); }
  }

  /** The plan, exactly. It fails only for an empty blob, an unusable configuration or no usable node.
      Otherwise ranges are used if and only if they are in play and either measurements may be
      missing by configuration, or the only range source is itself the quickest node, or all range
      sources are measured and the parallel estimate beats a whole request to every usable node by
      the configured factor. */
  lemma PlanExactly(config: Config, size: nat, cached: bool, nodes: seq<Node>)
    ensures var p := Plan(config, size, cached, nodes);
            && (p == Planned(CacheHit) <==> cached)
            && (p.InvalidConfiguration? <==> !cached && (size == 0 || !config.Usable()))
            && (p.NoUsableNodes? <==> !cached && 0 < size && config.Usable() && forall n :: n in nodes ==> !UsableNode(n))
            && (p.Planned? && !cached ==>
                  && 0 < size && config.Usable() && Usable(nodes) != []
                  && (p.strategy.Chunked? <==>
                      && InPlay(config, size, nodes)
                      && (|| config.allowUnmeasured
                          || (|Ranges(nodes)| == 1 && Quickest(size, Usable(nodes)).supportsRange)
                          || Pays(config, size, nodes))))
  {
    UsableExactly(nodes);
    if !cached && 0 < size && config.Usable() && Usable(nodes) != [] && InPlay(config, size, nodes) {
      BenefitPays(config, size, nodes);
      RangePlan(config, size, nodes);
    }
  }

  lemma RangePlan(config: Config, size: nat, nodes: seq<Node>)
    requires 0 < size && config.Usable() && Usable(nodes) != [] && InPlay(config, size, nodes)
    ensures var p := Plan(config, size, false, nodes);
            var best := Quickest(size, Usable(nodes));
            var benefit := EstimatedBenefit(size, EstimatedTime(size, best), Ranges(nodes), ChunkSize(config, size, nodes), Requested(config, nodes));
            && p.Planned?
            && (p.strategy.Chunked? <==>
                config.allowUnmeasured || (|Ranges(nodes)| == 1 && best.supportsRange) || !Short(benefit, config.minBenefit))
  {
  }
}
