/** Whole runs of the image-job protocol. Any number of workers, recovery passes, users and
    schedulers interleave at the granularity of one SQL statement or transaction. A state
    carries the tables, a clock, and a history that only the proofs read. */
module JobRuns {
  import opened Collections
  import opened JobTables

  /** One successful claim. `epoch` counts the finishes of the job before it. */
  datatype ClaimEvent = ClaimEvent(worker: WorkerId, job: JobId, attempt: nat, epoch: nat)

  /** What a worker remembers between claiming a job and leaving its tick: the job, the
      attempt token, and (for the proofs) which claim of the history this is. */
  datatype Held = Held(job: JobId, attempt: nat, claim: nat)

  datatype SlotEvent = SlotEvent(rule: RuleId, slot: Time, job: JobId)

  datatype System = System(
    t: Tables,
    clock: Time,
    held: map<WorkerId, Held>,
    claims: seq<ClaimEvent>,
    epochs: map<JobId, nat>,
    acked: set<JobId>,
    slots: seq<SlotEvent>)

  datatype Step =
    | Advance(to: Time)
    | Sql(stmt: Stmt)
    | Leave(worker: WorkerId)      // a tick ends without a finish: shutdown, error or crash
    | ObserveCancel(cancelled: JobId) // the cancel loop re-reads a job and finds it flagged

  const INIT := System(Tables(map[], map[], map[], map[]), 0, map[], [], map[], {}, [])

  function Epoch(s: System, j: JobId): nat { if j in s.epochs then s.epochs[j] else 0 }

  /** The actions the code can take. Times handed to a statement were read from the clock
      earlier. A worker claims only when it holds nothing, because its tick is sequential, and
      writes only under the token it holds. */
  predicate Allowed(s: System, step: Step) {
    match step
    case Advance(to) => s.clock <= to
    case Leave(_) => true
    case ObserveCancel(_) => true
    case Sql(stmt) =>
      && WellCalled(s.t, stmt)
      && match stmt
         case Claim(_, worker, now, lease) =>
           worker !in s.held && now <= s.clock && lease == now + JOB_LEASE
         case Guarded(job, worker, attempt, _) => Holds(s, worker, job, attempt)
         case Finish(job, worker, attempt, _, _, now, _) =>
           Holds(s, worker, job, attempt) && now <= s.clock
         case RecoverCancelled(now) => now <= s.clock
         case RecoverPending(now) => now <= s.clock
         case EnqueueRule(_, _, _, _, now, next) => now <= s.clock && now < next
         case CreateRule(rule, _, _) =>
           forall i :: 0 <= i < |s.slots| ==> s.slots[i].rule != rule
         case EditRule(_, _, computedAt, next) => computedAt <= s.clock && computedAt < next
         case _ => true
  }

  predicate Holds(s: System, worker: WorkerId, job: JobId, attempt: nat) {
    worker in s.held && s.held[worker].job == job && s.held[worker].attempt == attempt
  }

  /** A cancel statement that changed one row: the caller is told `204 No Content`. */
  predicate Acknowledges(t: Tables, stmt: Stmt) {
    match stmt
    case CancelPending(job, _) => HasStatus(t, job, Pending)
    case CancelRunning(job, _) => HasStatus(t, job, Running)
    case _ => false
  }

  function Next(s: System, step: Step): System {
    match step
    case Advance(to) => s.(clock := to)
    case Leave(worker) => s.(held := s.held - {worker})
    case ObserveCancel(job) =>
      if HasStatus(s.t, job, Running) && s.t.jobs[job].cancelRequested
      then s.(acked := s.acked + {job}) else s
    case Sql(stmt) =>
      var u := s.(t := Exec(s.t, stmt));
      match stmt
      case Claim(job, worker, _, _) =>
        if HasStatus(s.t, job, Pending) then
          var a := NextAttempt(s.t, job);
          u.(claims := s.claims + [ClaimEvent(worker, job, a, Epoch(s, job))],
             held := s.held[worker := Held(job, a, |s.claims|)])
        else u
      case Finish(job, worker, _, _, _, _, _) =>
        u.(held := s.held - {worker},
           epochs := if Finishes(s.t, stmt) then s.epochs[job := Epoch(s, job) + 1] else s.epochs)
      case CancelPending(job, _) => if Acknowledges(s.t, stmt) then u.(acked := s.acked + {job}) else u
      case CancelRunning(job, _) => if Acknowledges(s.t, stmt) then u.(acked := s.acked + {job}) else u
      case Retry(job, from, _) =>
        if from.CanTransitionTo(Pending) && HasStatus(s.t, job, from)
        then u.(acked := s.acked - {job}) else u
      case EnqueueRule(rule, scheduledFor, trigger, job, _, _) =>
        if trigger.Schedule? && Inserts(s.t, stmt)
        then u.(slots := s.slots + [SlotEvent(rule, scheduledFor.value, job)]) else u
      case _ => u
  }

  // --------------------------------------------------------------------------- runs

  ghost predicate AllowedRun(s: System, steps: seq<Step>)
    decreases |steps|
  {
    steps == [] || (Allowed(s, steps[0]) && AllowedRun(Next(s, steps[0]), steps[1..]))
  }

  ghost function After(s: System, steps: seq<Step>): System
    decreases |steps|
  {
    if steps == [] then s else After(Next(s, steps[0]), steps[1..])
  }

  /** A run splits at every point. */
  lemma {:induction false} RunSplit(s: System, a: seq<Step>, b: seq<Step>)
    ensures After(s, a + b) == After(After(s, a), b)
    ensures AllowedRun(s, a + b) <==> AllowedRun(s, a) && AllowedRun(After(s, a), b)
    decreases |a|
  {
    if a == [] {
      assert a + b == b;
    } else {
      assert (a + b)[0] == a[0] && (a + b)[1..] == a[1..] + b;
      RunSplit(Next(s, a[0]), a[1..], b);
    }
  }

  /** A run grows by one allowed step. */
  lemma Extend(s: System, steps: seq<Step>, a: Step)
    requires AllowedRun(s, steps) && Allowed(After(s, steps), a)
    ensures AllowedRun(s, steps + [a])
    ensures After(s, steps + [a]) == Next(After(s, steps), a)
  {
    RunSplit(s, steps, [a]);
    var u := After(s, steps);
    assert [a][1..] == [];
    assert After(Next(u, a), []) == Next(u, a);
    assert AllowedRun(Next(u, a), []);
  }

  // --------------------------------------------------------------- claim history

  /** Index of the latest claim of a job, or -1. */
  function LatestOf(claims: seq<ClaimEvent>, j: JobId): int {
    if claims == [] then -1
    else if claims[|claims| - 1].job == j then |claims| - 1
    else LatestOf(claims[..|claims| - 1], j)
  }

  /** Index of the latest claim made by a worker, or -1. */
  function LatestBy(claims: seq<ClaimEvent>, w: WorkerId): int {
    if claims == [] then -1
    else if claims[|claims| - 1].worker == w then |claims| - 1
    else LatestBy(claims[..|claims| - 1], w)
  }

  lemma {:induction false} LatestOfIsLatest(claims: seq<ClaimEvent>, j: JobId)
    ensures -1 <= LatestOf(claims, j) < |claims|
    ensures LatestOf(claims, j) >= 0 ==> claims[LatestOf(claims, j)].job == j
    ensures forall i :: LatestOf(claims, j) < i < |claims| ==> claims[i].job != j
  {
    if claims != [] { LatestOfIsLatest(claims[..|claims| - 1], j); }
  }

  lemma {:induction false} LatestByIsLatest(claims: seq<ClaimEvent>, w: WorkerId)
    ensures -1 <= LatestBy(claims, w) < |claims|
    ensures LatestBy(claims, w) >= 0 ==> claims[LatestBy(claims, w)].worker == w
    ensures forall i :: LatestBy(claims, w) < i < |claims| ==> claims[i].worker != w
  {
    if claims != [] { LatestByIsLatest(claims[..|claims| - 1], w); }
  }

  lemma LatestAfterClaim(claims: seq<ClaimEvent>, e: ClaimEvent, j: JobId, w: WorkerId)
    ensures LatestOf(claims + [e], j) == if e.job == j then |claims| else LatestOf(claims, j)
    ensures LatestBy(claims + [e], w) == if e.worker == w then |claims| else LatestBy(claims, w)
  {
    assert (claims + [e])[..|claims|] == claims;
  }

  // --------------------------------------------------------------------- invariant

  /** The owner row of a job is the token of its latest claim. */
  predicate OwnerIsLatest(s: System, j: JobId) {
    var n := LatestOf(s.claims, j);
    j in s.t.owners ==>
      && 0 <= n < |s.claims|
      && s.claims[n] == ClaimEvent(s.t.owners[j].worker, j, s.t.owners[j].attempt, Epoch(s, j))
  }

  /** The claim a worker holds is the last one it made. */
  predicate HeldIsLast(s: System, w: WorkerId) {
    w in s.held ==>
      var h := s.held[w];
      && h.claim < |s.claims|
      && s.claims[h.claim].worker == w
      && s.claims[h.claim].job == h.job
      && s.claims[h.claim].attempt == h.attempt
      && h.claim == LatestBy(s.claims, w)
  }

  predicate AckStands(s: System, j: JobId) { j in s.acked ==> CancelStands(s.t, j) }

  /** No claim is from a later epoch, and within the current one none outranks the owner row. */
  predicate ClaimRanked(s: System, i: nat) {
    i < |s.claims| ==>
      var c := s.claims[i];
      && c.epoch <= Epoch(s, c.job)
      && (c.epoch == Epoch(s, c.job) ==> c.job in s.t.owners && c.attempt <= s.t.owners[c.job].attempt)
  }

  predicate AttemptsOrdered(s: System, i: nat, k: nat) {
    (i < k < |s.claims| && s.claims[i].job == s.claims[k].job && s.claims[i].epoch == s.claims[k].epoch) ==>
      s.claims[i].attempt < s.claims[k].attempt || s.claims[k].attempt == I64_MAX
  }

  ghost predicate Inv(s: System) {
    && RecordsOk(s.t)
    && LinksOk(s.t)
    && (forall j :: OwnerIsLatest(s, j))
    && (forall w :: HeldIsLast(s, w))
    && (forall j :: AckStands(s, j))
    && (forall i :: ClaimRanked(s, i))
    && (forall i, k :: AttemptsOrdered(s, i, k))
  }

  /** Only a claim writes an owner row, and only a finish removes one. */
  lemma ExecOwner(t: Tables, stmt: Stmt, j: JobId)
    requires !stmt.Claim? && j in Exec(t, stmt).owners
    ensures j in t.owners && Exec(t, stmt).owners[j] == t.owners[j]
    ensures stmt.Finish? && Finishes(t, stmt) ==> stmt.job != j
  {
  }

  lemma ClaimKeepsOwner(s: System, step: Step, j: JobId)
    requires step.Sql? && step.stmt.Claim? && OwnerIsLatest(s, j)
    ensures OwnerIsLatest(Next(s, step), j)
  {
    var e := ClaimEvent(step.stmt.worker, step.stmt.job, NextAttempt(s.t, step.stmt.job), Epoch(s, step.stmt.job));
    LatestAfterClaim(s.claims, e, j, 0);
  }

  lemma StepKeepsOwner(s: System, step: Step, j: JobId)
    requires Allowed(s, step) && OwnerIsLatest(s, j)
    ensures OwnerIsLatest(Next(s, step), j)
  {
    var u := Next(s, step);
    if step.Sql? && step.stmt.Claim? {
      ClaimKeepsOwner(s, step, j);
    } else if step.Sql? && j in u.t.owners {
      ExecOwner(s.t, step.stmt, j);
      assert u.claims == s.claims && Epoch(u, j) == Epoch(s, j);
    }
  }

  lemma StepKeepsHeld(s: System, step: Step, w: WorkerId)
    requires Allowed(s, step) && HeldIsLast(s, w)
    ensures HeldIsLast(Next(s, step), w)
  {
    if step.Sql? && step.stmt.Claim? {
      var e := ClaimEvent(step.stmt.worker, step.stmt.job, NextAttempt(s.t, step.stmt.job), Epoch(s, step.stmt.job));
      LatestAfterClaim(s.claims, e, 0, w);
    }
  }

  lemma StepKeepsAck(s: System, step: Step, j: JobId)
    requires Allowed(s, step) && AckStands(s, j)
    ensures AckStands(Next(s, step), j)
  {
    if step.Sql? && j in s.acked && !(step.stmt.Retry? && step.stmt.job == j) {
      ExecKeepsCancel(s.t, step.stmt, j);
    }
  }

  lemma StepKeepsRank(s: System, step: Step, i: nat)
    requires Allowed(s, step) && ClaimRanked(s, i) && LinksOk(s.t)
    ensures ClaimRanked(Next(s, step), i)
  {
    if i < |s.claims| { assert OwnerOk(s.t, s.claims[i].job); }
  }

  lemma StepKeepsOrder(s: System, step: Step, i: nat, k: nat)
    requires Allowed(s, step) && AttemptsOrdered(s, i, k) && ClaimRanked(s, i)
    ensures AttemptsOrdered(Next(s, step), i, k)
  {
  }

  lemma StepKeepsInv(s: System, step: Step)
    requires Allowed(s, step) && Inv(s)
    ensures Inv(Next(s, step))
  {
    if step.Sql? {
      ExecKeepsRecords(s.t, step.stmt);
      ExecKeepsLinks(s.t, step.stmt);
    }
    var u := Next(s, step);
    forall j ensures OwnerIsLatest(u, j) && AckStands(u, j) {
      StepKeepsOwner(s, step, j);
      StepKeepsAck(s, step, j);
    }
    forall w ensures HeldIsLast(u, w) { StepKeepsHeld(s, step, w); }
    forall i ensures ClaimRanked(u, i) { StepKeepsRank(s, step, i); }
    forall i, k ensures AttemptsOrdered(u, i, k) { StepKeepsOrder(s, step, i, k); }
  }

  /** The invariant holds after every allowed run. */
  lemma {:induction false} RunKeepsInv(s: System, steps: seq<Step>)
    requires Inv(s) && AllowedRun(s, steps)
    ensures Inv(After(s, steps))
    decreases |steps|
  {
    if steps != [] {
      StepKeepsInv(s, steps[0]);
      RunKeepsInv(Next(s, steps[0]), steps[1..]);
    }
  }

  lemma Reachable(steps: seq<Step>)
    requires AllowedRun(INIT, steps)
    ensures Inv(After(INIT, steps))
  {
    RunKeepsInv(INIT, steps);
  }
}
