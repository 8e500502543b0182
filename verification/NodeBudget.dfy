/** The connection budget: a semaphore of 64 request permits, a semaphore of 8 probe permits and one
    counter per node, updated by many threads in separate steps. */
module NodeBudget {
  import opened Collections

  type NodeId = nat
  type ThreadId = nat

  const MAX_REQUESTS: nat := 64
  const MAX_PROBES: nat := 8

  /** Where a thread stands between taking a request permit and giving it back. */
  datatype Stage =
    | Idle
    | Permitted(node: NodeId, max: nat) // permit taken, counter not yet checked
    | Refused(node: NodeId)             // node full, permit not yet given back
    | Leased(node: NodeId)              // counted; the lease is live
    | Uncounted(node: NodeId)           // counter decremented, permit not yet given back

  datatype Thread = Thread(stage: Stage, probe: bool)

  datatype Budget = Budget(
    requests: nat,
    probes: nat,
    active: map<NodeId, nat>,
    threads: map<ThreadId, Thread>)

  datatype Step =
    | TakePermit(thread: ThreadId, node: NodeId, max: nat)
    | CheckAndCount(thread: ThreadId)
    | GiveBack(thread: ThreadId)
    | Uncount(thread: ThreadId)
    | TakeProbe(thread: ThreadId)
    | GiveBackProbe(thread: ThreadId)

  const INIT := Budget(MAX_REQUESTS, MAX_PROBES, map[], map[])

  function ThreadOf(b: Budget, t: ThreadId): Thread {
    if t in b.threads then b.threads[t] else Thread(Idle, false)
  }

  function ActiveOf(b: Budget, n: NodeId): nat { if n in b.active then b.active[n] else 0 }

  /** A step a thread can take; a semaphore step waits for a permit. */
  predicate Enabled(b: Budget, s: Step) {
    var th := ThreadOf(b, s.thread);
    match s
    case TakePermit(_, _, _) => th.stage.Idle? && b.requests > 0
    case CheckAndCount(_) => th.stage.Permitted?
    case GiveBack(_) => th.stage.Refused? || th.stage.Uncounted?
    case Uncount(_) => th.stage.Leased?
    case TakeProbe(_) => !th.probe && b.probes > 0
    case GiveBackProbe(_) => th.probe
  }

  function Next(b: Budget, s: Step): Budget
    requires Enabled(b, s)
  {
    var t, th := s.thread, ThreadOf(b, s.thread);
    match s
    case TakePermit(_, node, max) =>
      b.(requests := b.requests - 1, threads := b.threads[t := th.(stage := Permitted(node, max))])
    case CheckAndCount(_) =>
      var n, a := th.stage.node, ActiveOf(b, th.stage.node);
      if a >= th.stage.max
      then b.(active := b.active[n := a], threads := b.threads[t := th.(stage := Refused(n))])
      else b.(active := b.active[n := a + 1], threads := b.threads[t := th.(stage := Leased(n))])
    case GiveBack(_) => b.(requests := b.requests + 1, threads := b.threads[t := th.(stage := Idle)])
    case Uncount(_) =>
      var n := th.stage.node;
      b.(active := if n in b.active then b.active[n := SatSub(b.active[n], 1)] else b.active,
         threads := b.threads[t := th.(stage := Uncounted(n))])
    case TakeProbe(_) => b.(probes := b.probes - 1, threads := b.threads[t := th.(probe := true)])
    case GiveBackProbe(_) => b.(probes := b.probes + 1, threads := b.threads[t := th.(probe := false)])
  }

  ghost predicate Run(b: Budget, steps: seq<Step>, end: Budget)
    decreases |steps|
  {
    if steps == [] then b == end else Enabled(b, steps[0]) && Run(Next(b, steps[0]), steps[1..], end)
  }

  // --------------------------------------------------------------------- accounting

  ghost function LeasesOn(b: Budget, n: NodeId): set<ThreadId> {
    set t | t in b.threads && b.threads[t].stage == Leased(n)
  }

  ghost function Leases(b: Budget): set<ThreadId> {
    set t | t in b.threads && b.threads[t].stage.Leased?
  }

  /** Threads between the paired steps: they hold a permit but are not counted. */
  ghost function Between(b: Budget): set<ThreadId> {
    set t | t in b.threads && !b.threads[t].stage.Leased? && !b.threads[t].stage.Idle?
  }

  ghost function Probing(b: Budget): set<ThreadId> {
    set t | t in b.threads && b.threads[t].probe
  }

  ghost predicate CounterExact(b: Budget, n: NodeId) { ActiveOf(b, n) == |LeasesOn(b, n)| }

  ghost predicate PermitsExact(b: Budget) {
    b.requests + |Leases(b)| + |Between(b)| == MAX_REQUESTS && b.probes + |Probing(b)| == MAX_PROBES
  }

  ghost predicate Inv(b: Budget) {
    (forall n :: CounterExact(b, n)) && Total(b.active) == |Leases(b)| && PermitsExact(b)
  }

  lemma MovesOn(b: Budget, s: Step, n: NodeId)
    requires Enabled(b, s)
    ensures var c := Next(b, s); var t := s.thread;
            LeasesOn(c, n) == if ThreadOf(c, t).stage == Leased(n) then LeasesOn(b, n) + {t} else LeasesOn(b, n) - {t}
    ensures s.thread in LeasesOn(b, n) <==> ThreadOf(b, s.thread).stage == Leased(n)
  {
  }

  /** How a change of one thread moves it between the sets. */
  lemma Moves(b: Budget, s: Step)
    requires Enabled(b, s)
    ensures var c := Next(b, s); var t := s.thread; var st := ThreadOf(c, t).stage;
            && Leases(c) == (if st.Leased? then Leases(b) + {t} else Leases(b) - {t})
            && Between(c) == (if st.Leased? || st.Idle? then Between(b) - {t} else Between(b) + {t})
            && Probing(c) == (if ThreadOf(c, t).probe then Probing(b) + {t} else Probing(b) - {t})
  {
  }

  lemma StepKeepsCounter(b: Budget, s: Step, n: NodeId)
    requires CounterExact(b, n) && Enabled(b, s)
    ensures CounterExact(Next(b, s), n)
  {
    MovesOn(b, s, n);
    OneMore(LeasesOn(b, n), s.thread);
    CounterMoves(b, s, n);
  }

  lemma CounterMoves(b: Budget, s: Step, n: NodeId)
    requires CounterExact(b, n) && Enabled(b, s)
    requires s.thread in LeasesOn(b, n) <==> ThreadOf(b, s.thread).stage == Leased(n)
    ensures ActiveOf(Next(b, s), n) == ActiveOf(b, n) + (if ThreadOf(Next(b, s), s.thread).stage == Leased(n) then 1 else 0)
                                       - (if ThreadOf(b, s.thread).stage == Leased(n) then 1 else 0)
  {
  }

  lemma StepKeepsTotal(b: Budget, s: Step)
    requires Enabled(b, s) && Total(b.active) == |Leases(b)|
    requires ThreadOf(b, s.thread).stage.Leased? ==> CounterExact(b, ThreadOf(b, s.thread).stage.node)
    ensures var c := Next(b, s); Total(c.active) == |Leases(c)|
  {
    var before := ThreadOf(b, s.thread).stage;
    Moves(b, s);
    assert s.thread in Leases(b) <==> before.Leased?;
    if s.CheckAndCount? || s.Uncount? {
      assert s.Uncount? ==> s.thread in LeasesOn(b, before.node);
      TotalPut(b.active, before.node, ActiveOf(Next(b, s), before.node));
    }
  }

  lemma OneMore(a: set<ThreadId>, t: ThreadId)
    ensures |a + {t}| == |a| + (if t in a then 0 else 1)
    ensures |a - {t}| == |a| - (if t in a then 1 else 0)
  {
    if t in a { assert a + {t} == a; } else { assert a - {t} == a; }
  }

  lemma LeasesMove(b: Budget, s: Step)
    requires Enabled(b, s)
    ensures |Leases(Next(b, s))| == |Leases(b)| + One(ThreadOf(Next(b, s), s.thread).stage.Leased?) - One(ThreadOf(b, s.thread).stage.Leased?)
  {
    Moves(b, s);
    OneMore(Leases(b), s.thread);
    assert s.thread in Leases(b) <==> ThreadOf(b, s.thread).stage.Leased?;
  }

  lemma BetweenMoves(b: Budget, s: Step)
    requires Enabled(b, s)
    ensures |Between(Next(b, s))| == |Between(b)| + One(InBetween(ThreadOf(Next(b, s), s.thread).stage)) - One(InBetween(ThreadOf(b, s.thread).stage))
  {
    Moves(b, s);
    OneMore(Between(b), s.thread);
    assert s.thread in Between(b) <==> InBetween(ThreadOf(b, s.thread).stage);
  }

  lemma ProbingMoves(b: Budget, s: Step)
    requires Enabled(b, s)
    ensures |Probing(Next(b, s))| == |Probing(b)| + One(ThreadOf(Next(b, s), s.thread).probe) - One(ThreadOf(b, s.thread).probe)
  {
    Moves(b, s);
    OneMore(Probing(b), s.thread);
    assert s.thread in Probing(b) <==> ThreadOf(b, s.thread).probe;
  }

  function One(b: bool): nat { if b then 1 else 0 }

  predicate InBetween(stage: Stage) { !stage.Leased? && !stage.Idle? }

  lemma StepKeepsPermits(b: Budget, s: Step)
    requires Enabled(b, s) && PermitsExact(b)
    ensures PermitsExact(Next(b, s))
  {
    LeasesMove(b, s);
    BetweenMoves(b, s);
    ProbingMoves(b, s);
  }

  lemma StepKeepsInv(b: Budget, s: Step)
    requires Inv(b) && Enabled(b, s)
    ensures Inv(Next(b, s))
  {
    forall n ensures CounterExact(Next(b, s), n) { StepKeepsCounter(b, s, n); }
    StepKeepsTotal(b, s);
    StepKeepsPermits(b, s);
  }

  lemma InitInv()
    ensures Inv(INIT)
  {
    assert Leases(INIT) == {} && Between(INIT) == {} && Probing(INIT) == {};
    forall n ensures CounterExact(INIT, n) { assert LeasesOn(INIT, n) == {}; }
  }

  lemma {:induction false} RunKeepsInv(b: Budget, steps: seq<Step>, end: Budget)
    requires Inv(b) && Run(b, steps, end)
    ensures Inv(end)
    decreases |steps|
  {
    if steps != [] {
      StepKeepsInv(b, steps[0]);
      RunKeepsInv(Next(b, steps[0]), steps[1..], end);
    }
  }

  /** The budget over every interleaving: request permits out equal the node counters plus the threads
      between paired steps, so the counters never sum above 64, and at most 8 probes are out. */
  lemma PermitsAccountedFor(steps: seq<Step>, b: Budget)
    requires Run(INIT, steps, b)
    ensures b.requests + Total(b.active) + |Between(b)| == MAX_REQUESTS
    ensures Total(b.active) <= MAX_REQUESTS && b.requests <= MAX_REQUESTS
    ensures |Probing(b)| <= MAX_PROBES
    ensures forall n :: ActiveOf(b, n) == |LeasesOn(b, n)|
  {
    InitInv();
    RunKeepsInv(INIT, steps, b);
    forall n ensures ActiveOf(b, n) == |LeasesOn(b, n)| { assert CounterExact(b, n); }
  }

  /** In a reachable state the saturating decrement never clips, and a lease is granted exactly when the
      node is below its limit, which it then does not exceed. */
  lemma CountersAreExact(steps: seq<Step>, b: Budget, s: Step)
    requires Run(INIT, steps, b) && Enabled(b, s)
    ensures s.Uncount? ==>
              var n := ThreadOf(b, s.thread).stage.node;
              ActiveOf(b, n) >= 1 && ActiveOf(Next(b, s), n) == ActiveOf(b, n) - 1
    ensures s.CheckAndCount? ==>
              var th := ThreadOf(b, s.thread).stage; var c := Next(b, s);
              && (ThreadOf(c, s.thread).stage == Leased(th.node) <==> |LeasesOn(b, th.node)| < th.max)
              && (ThreadOf(c, s.thread).stage.Leased? ==> |LeasesOn(c, th.node)| <= th.max)
  {
    PermitsAccountedFor(steps, b);
    StepExtends(INIT, steps, b, s);
    PermitsAccountedFor(steps + [s], Next(b, s));
    if s.Uncount? {
      assert s.thread in LeasesOn(b, ThreadOf(b, s.thread).stage.node);
    }
  }

  lemma {:induction false} StepExtends(b: Budget, steps: seq<Step>, end: Budget, s: Step)
    requires Run(b, steps, end) && Enabled(end, s)
    ensures Run(b, steps + [s], Next(end, s))
    decreases |steps|
  {
    if steps == [] {
      assert (steps + [s])[1..] == [];
      assert Run(Next(end, s), [], Next(end, s));
    } else {
      assert (steps + [s])[0] == steps[0] && (steps + [s])[1..] == steps[1..] + [s];
      StepExtends(Next(b, steps[0]), steps[1..], end, s);
    }
  }

  /** When every lease, probe and half-done acquisition is dropped, the budget is as it began. */
  lemma DroppingAllRestores(steps: seq<Step>, b: Budget)
    requires Run(INIT, steps, b)
    requires forall t :: t in b.threads ==> b.threads[t] == Thread(Idle, false)
    ensures b.requests == MAX_REQUESTS && b.probes == MAX_PROBES
    ensures forall n :: ActiveOf(b, n) == 0
  {
    InitInv();
    RunKeepsInv(INIT, steps, b);
    assert Leases(b) == {} && Between(b) == {} && Probing(b) == {};
    forall n ensures ActiveOf(b, n) == 0 { assert CounterExact(b, n) && LeasesOn(b, n) == {}; }
  }

  /** The shared object. `TryAcquire` takes a permit and checks the counter in two steps with other
      threads in between; dropping a lease decrements and gives back in two steps as well. */
  class NodeCapacity {
    var requests: nat
    var probes: nat
    var active: map<NodeId, nat>
    var threads: map<ThreadId, Thread> // which thread stands where; no decision depends on it

    constructor ()
      ensures View() == INIT
    {
      requests, probes, active, threads := MAX_REQUESTS, MAX_PROBES, map[], map[];
    }

    function View(): Budget
      reads this
    {
      Budget(requests, probes, active, threads)
    }

    /** Steps of other threads. */
    method Others(me: ThreadId, steps: seq<Step>)
      modifies this
      ensures View() == Amid(old(View()), steps, me)
    {
      var b := Amid(View(), steps, me);
      requests, probes, active, threads := b.requests, b.probes, b.active, b.threads;
    }

    method TakeRequestPermit(me: ThreadId, node: NodeId, max: nat) returns (ok: bool)
      requires ThreadOf(View(), me).stage.Idle?
      modifies this
      ensures ok <==> old(requests) > 0
      ensures View() == if ok then Next(old(View()), TakePermit(me, node, max)) else old(View())
    {
      ok := requests > 0;
      if ok {
        requests := requests - 1;
        threads := threads[me := ThreadOf(View(), me).(stage := Permitted(node, max))];
      }
    }

    method CheckCounter(me: ThreadId, node: NodeId, max: nat) returns (leased: bool)
      requires ThreadOf(View(), me).stage == Permitted(node, max)
      modifies this
      ensures View() == Next(old(View()), CheckAndCount(me))
      ensures leased <==> ThreadOf(View(), me).stage == Leased(node)
    {
      if node !in active { active := active[node := 0]; }
      leased := active[node] < max;
      if leased { active := active[node := active[node] + 1]; }
      threads := threads[me := ThreadOf(View(), me).(stage := if leased then Leased(node) else Refused(node))];
    }

    method DropPermit(me: ThreadId)
      requires var st := ThreadOf(View(), me).stage; st.Refused? || st.Uncounted?
      modifies this
      ensures View() == Next(old(View()), GiveBack(me))
    {
      requests := requests + 1;
      threads := threads[me := ThreadOf(View(), me).(stage := Idle)];
    }

    method DropLeaseCount(me: ThreadId, node: NodeId)
      requires ThreadOf(View(), me).stage == Leased(node)
      modifies this
      ensures View() == Next(old(View()), Uncount(me))
    {
      if node in active { active := active[node := SatSub(active[node], 1)]; }
      threads := threads[me := ThreadOf(View(), me).(stage := Uncounted(node))];
    }

    /** `try_acquire` with any steps of other threads between its own: it grants exactly when a permit is
        free at the start and the node is below its limit at the check, and what it does is exactly
        its own two or three steps. */
    method TryAcquire(me: ThreadId, node: NodeId, max: nat, gap1: seq<Step>, gap2: seq<Step>) returns (leased: bool)
      requires ThreadOf(View(), me).stage.Idle?
      modifies this
      ensures old(requests) == 0 ==> !leased && View() == old(View())
      ensures 0 < old(requests) ==>
                var b1 := Amid(Next(old(View()), TakePermit(me, node, max)), gap1, me);
                && Enabled(b1, CheckAndCount(me))
                && (leased <==> ActiveOf(b1, node) < max)
                && var b2 := Next(b1, CheckAndCount(me));
                   if leased then View() == b2
                   else Enabled(Amid(b2, gap2, me), GiveBack(me)) && View() == Next(Amid(b2, gap2, me), GiveBack(me))
    {
      leased := TakeRequestPermit(me, node, max);
      if leased {
        AmidKeepsThread(View(), gap1, me);
        Others(me, gap1);
        leased := CheckCounter(me, node, max);
        if !leased {
          AmidKeepsThread(View(), gap2, me);
          Others(me, gap2);
          DropPermit(me);
        }
      }
    }
  }

  /** Steps of other threads, each taken if it is enabled. */
  function Amid(b: Budget, steps: seq<Step>, me: ThreadId): Budget
    decreases |steps|
  {
    if steps == [] then b
    else Amid(if steps[0].thread != me && Enabled(b, steps[0]) then Next(b, steps[0]) else b, steps[1..], me)
  }

  lemma {:induction false} AmidKeepsThread(b: Budget, steps: seq<Step>, me: ThreadId)
    ensures ThreadOf(Amid(b, steps, me), me) == ThreadOf(b, me)
    decreases |steps|
  {
    if steps != [] {
      AmidKeepsThread(if steps[0].thread != me && Enabled(b, steps[0]) then Next(b, steps[0]) else b, steps[1..], me);
    }
  }
}
