/** The tables behind image jobs and what each SQL statement or transaction does to
    them. One constructor of `Stmt` is one atomic action on the database. */
module JobTables {
  import opened Collections

  type JobId = nat
  type WorkerId = nat
  type RuleId = nat
  type Time = int // milliseconds

  const JOB_LEASE: Time := 10 * 60 * 1000

  datatype Status = Pending | Running | Completed | Skipped | Failed | Cancelled {
    predicate Terminal() { !Pending? && !Running? }

    predicate CanTransitionTo(next: Status) {
      match this
      case Pending => next.Running? || next.Cancelled?
      case Running => next.Terminal()
      case Failed => next.Pending?
      case Cancelled => next.Pending?
      case Skipped => next.Pending?
      case Completed => false
    }
  }

  /** An idempotency key. A client may send any key, also one shaped like a slot key. */
  datatype Key = SlotKey(rule: RuleId, slot: Time) | ClientKey(text: string)

  datatype Job = Job(
    status: Status,
    stage: string,
    error: Option<string>,
    resolvedDigest: Option<string>,
    indexDigest: Option<string>,
    progress: int,
    total: int,
    artifactPath: Option<string>,
    artifactName: Option<string>,
    key: Option<Key>,
    cancelRequested: bool,
    leaseUntil: Option<Time>,
    startedAt: Option<Time>,
    finishedAt: Option<Time>,
    updatedAt: Time)

  datatype Owner = Owner(worker: WorkerId, attempt: nat)

  datatype Trigger = Schedule | Manual

  datatype Lineage = Lineage(rule: RuleId, scheduledFor: Option<Time>, trigger: Trigger)

  datatype Rule = Rule(
    enabled: bool,
    nextRunAt: Option<Time>,
    lastDigest: Option<string>,
    lastRunAt: Option<Time>)

  datatype Tables = Tables(
    jobs: map<JobId, Job>,
    owners: map<JobId, Owner>,
    lineage: map<JobId, Lineage>,
    rules: map<RuleId, Rule>)

  /** The five writes a worker makes under its fencing token. */
  datatype Write =
    | Renew(lease: Time, now: Time)
    | SetManifest(resolved: string, index: Option<string>, total: int, now: Time)
    | SetProgress(stage: string, progress: int, total: int, lease: Time, now: Time)
    | SetStage(stage: string, lease: Time, now: Time)
    | SetArtifact(path: string, name: string, now: Time)

  datatype Stmt =
    | Claim(job: JobId, worker: WorkerId, now: Time, lease: Time)
    | Guarded(job: JobId, worker: WorkerId, attempt: nat, write: Write)
    | Finish(job: JobId, worker: WorkerId, attempt: nat, status: Status, error: Option<string>,
             now: Time, cancelRequested: bool)
    | RecoverCancelled(now: Time)
    | RecoverPending(now: Time)
    | CancelPending(job: JobId, now: Time)
    | CancelRunning(job: JobId, now: Time)
    | Retry(job: JobId, from: Status, now: Time)
    | CreateJob(job: JobId, key: Option<Key>, now: Time)
    | EnqueueRule(rule: RuleId, scheduledFor: Option<Time>, trigger: Trigger, job: JobId,
                  now: Time, next: Time)
    | CreateRule(rule: RuleId, enabled: bool, next: Time)
    | EditRule(rule: RuleId, enabled: bool, computedAt: Time, next: Time)
    | DeleteRule(rule: RuleId)
    | ClearStorage(job: JobId)

  predicate HasStatus(t: Tables, job: JobId, status: Status) {
    job in t.jobs && t.jobs[job].status == status
  }

  /** The ownership predicate that is part of every guarded update: the job is running
      and the owner row carries this worker and this attempt. */
  predicate Owns(t: Tables, job: JobId, worker: WorkerId, attempt: nat) {
    && HasStatus(t, job, Running)
    && job in t.owners
    && t.owners[job] == Owner(worker, attempt)
  }

  function StageOf(status: Status): string {
    match status
    case Pending => "queued"
    case Running => "resolving"
    case Completed => "completed"
    case Skipped => "skipped"
    case Failed => "failed"
    case Cancelled => "cancelled"
  }

  /** The column changes of a status transition. */
  function Transition(j: Job, to: Status, now: Time, error: Option<string>): Job {
    var c := j.(status := to, stage := StageOf(to), error := error, updatedAt := now);
    match to
    case Running =>
      c.(startedAt := Some(now), finishedAt := None, leaseUntil := Some(now + JOB_LEASE),
         cancelRequested := false)
    case Pending =>
      c.(progress := 0, total := 0, startedAt := None, finishedAt := None, leaseUntil := None,
         cancelRequested := false)
    case _ =>
      c.(finishedAt := Some(now), leaseUntil := None, cancelRequested := to.Cancelled?)
  }

  function PendingJob(key: Option<Key>, now: Time): Job {
    Job(Pending, "queued", None, None, None, 0, 0, None, None, key, false, None, None, None, now)
  }

  predicate Abandoned(j: Job, now: Time) {
    j.status == Running && (j.leaseUntil.None? || j.leaseUntil.value <= now)
  }

  function NextAttempt(t: Tables, job: JobId): nat {
    Min(if job in t.owners then t.owners[job].attempt + 1 else 1, I64_MAX)
  }

  function Written(j: Job, w: Write): Job {
    match w
    case Renew(lease, now) => j.(leaseUntil := Some(lease), updatedAt := now)
    case SetManifest(d, i, total, now) =>
      j.(resolvedDigest := Some(d), indexDigest := i, total := total, updatedAt := now)
    case SetProgress(stage, p, total, lease, now) =>
      j.(stage := stage, progress := p, total := total, updatedAt := now, leaseUntil := Some(lease))
    case SetStage(stage, lease, now) =>
      j.(stage := stage, updatedAt := now, leaseUntil := Some(lease))
    case SetArtifact(path, name, now) =>
      j.(artifactPath := Some(path), artifactName := Some(name), updatedAt := now)
  }

  function Recovered(j: Job, now: Time): Job {
    j.(status := Pending, stage := "recovered", error := None, cancelRequested := false,
       leaseUntil := None, startedAt := None, finishedAt := None, updatedAt := now)
  }

  function Claimed(j: Job, now: Time, lease: Time): Job {
    j.(status := Running, stage := "resolving", leaseUntil := Some(lease), startedAt := Some(now),
       updatedAt := now)
  }

  function Finished(j: Job, status: Status, error: Option<string>, now: Time): Job {
    j.(status := status, error := error, leaseUntil := None, finishedAt := Some(now), updatedAt := now)
  }

  predicate Finishes(t: Tables, s: Stmt)
    requires s.Finish?
  {
    Owns(t, s.job, s.worker, s.attempt) && t.jobs[s.job].cancelRequested == s.cancelRequested
  }

  /** The rules after a finish: a completed job hands its digest to its lineage rule. */
  function RulesAfterFinish(t: Tables, job: JobId, status: Status, now: Time): map<RuleId, Rule>
    requires job in t.jobs
  {
    if status.Completed? && job in t.lineage && t.lineage[job].rule in t.rules then
      var r := t.lineage[job].rule;
      t.rules[r := t.rules[r].(lastDigest := t.jobs[job].resolvedDigest, lastRunAt := Some(now))]
    else t.rules
  }

  predicate KeyTaken(t: Tables, key: Key) {
    exists j :: j in t.jobs && t.jobs[j].key == Some(key)
  }

  /** The guard of a scheduled enqueue, re-checked inside its transaction. */
  predicate Due(t: Tables, rule: RuleId, scheduledFor: Option<Time>, now: Time) {
    && rule in t.rules
    && t.rules[rule].enabled
    && t.rules[rule].nextRunAt == scheduledFor
    && scheduledFor.Some?
    && scheduledFor.value <= now
  }

  /** A rule transaction that inserts a new job row. */
  predicate Inserts(t: Tables, s: Stmt)
    requires s.EnqueueRule?
  {
    && s.rule in t.rules
    && (s.trigger.Schedule? ==>
          && Due(t, s.rule, s.scheduledFor, s.now)
          && !KeyTaken(t, SlotKey(s.rule, s.scheduledFor.value)))
  }

  function EnqueuedJob(s: Stmt): Job
    requires s.EnqueueRule? && (s.trigger.Schedule? ==> s.scheduledFor.Some?)
  {
    PendingJob(if s.trigger.Schedule? then Some(SlotKey(s.rule, s.scheduledFor.value)) else None, s.now)
  }

  function Enqueue(t: Tables, s: Stmt): Tables
    requires s.EnqueueRule?
  {
    var inserted :=
      if Inserts(t, s) then
        t.(jobs := t.jobs[s.job := EnqueuedJob(s)],
           lineage := t.lineage[s.job := Lineage(s.rule, s.scheduledFor, s.trigger)])
      else t;
    if s.trigger.Schedule? && Due(t, s.rule, s.scheduledFor, s.now)
    then inserted.(rules := t.rules[s.rule := t.rules[s.rule].(nextRunAt := Some(s.next))])
    else inserted
  }

  /** The effect of one atomic statement or transaction. */
  function Exec(t: Tables, s: Stmt): Tables {
    match s
    case Claim(job, worker, now, lease) =>
      if HasStatus(t, job, Pending) then
        t.(jobs := t.jobs[job := Claimed(t.jobs[job], now, lease)],
           owners := t.owners[job := Owner(worker, NextAttempt(t, job))])
      else t
    case Guarded(job, worker, attempt, w) =>
      if Owns(t, job, worker, attempt) then t.(jobs := t.jobs[job := Written(t.jobs[job], w)]) else t
    case Finish(job, worker, attempt, status, error, now, _) =>
      if Finishes(t, s) then
        Tables(t.jobs[job := Finished(t.jobs[job], status, error, now)], t.owners - {job}, t.lineage,
               RulesAfterFinish(t, job, status, now))
      else t
    case RecoverCancelled(now) =>
      t.(jobs := map j | j in t.jobs ::
           if Abandoned(t.jobs[j], now) && t.jobs[j].cancelRequested
           then Transition(t.jobs[j], Cancelled, now, None) else t.jobs[j])
    case RecoverPending(now) =>
      t.(jobs := map j | j in t.jobs ::
           if Abandoned(t.jobs[j], now) && !t.jobs[j].cancelRequested
           then Recovered(t.jobs[j], now) else t.jobs[j])
    case CancelPending(job, now) =>
      if HasStatus(t, job, Pending)
      then t.(jobs := t.jobs[job := Transition(t.jobs[job], Cancelled, now, None)]) else t
    case CancelRunning(job, now) =>
      if HasStatus(t, job, Running)
      then t.(jobs := t.jobs[job := t.jobs[job].(cancelRequested := true, updatedAt := now)]) else t
    case Retry(job, from, now) =>
      if from.CanTransitionTo(Pending) && HasStatus(t, job, from)
      then t.(jobs := t.jobs[job := Transition(t.jobs[job], Pending, now, None)]) else t
    case CreateJob(job, key, now) =>
      if key.Some? && KeyTaken(t, key.value) then t
      else t.(jobs := t.jobs[job := PendingJob(key, now)])
    case EnqueueRule(_, _, _, _, _, _) => Enqueue(t, s)
    case CreateRule(rule, enabled, next) =>
      t.(rules := t.rules[rule := Rule(enabled, Some(next), None, None)])
    case EditRule(rule, enabled, _, next) =>
      if rule in t.rules
      then t.(rules := t.rules[rule := t.rules[rule].(enabled := enabled, nextRunAt := Some(next))]) else t
    case DeleteRule(rule) =>
      t.(rules := t.rules - {rule},
         lineage := map j | j in t.lineage && t.lineage[j].rule != rule :: t.lineage[j])
    case ClearStorage(job) =>
      if job in t.jobs
      then t.(jobs := t.jobs[job := t.jobs[job].(artifactPath := None, artifactName := None, key := None)])
      else t
  }

  /** Cancelled, or running with the cancel flag up. */
  predicate CancelStands(t: Tables, j: JobId) {
    && j in t.jobs
    && (t.jobs[j].status.Cancelled? || (t.jobs[j].status.Running? && t.jobs[j].cancelRequested))
  }

  // ------------------------------------------------------------------- invariants

  /** What the columns of one job row say about its status. */
  predicate RecordOk(j: Job) {
    match j.status
    case Pending =>
      j.leaseUntil.None? && j.startedAt.None? && j.finishedAt.None? && !j.cancelRequested
    case Running => j.leaseUntil.Some? && j.startedAt.Some? && j.finishedAt.None?
    case _ =>
      j.leaseUntil.None? && j.finishedAt.Some? && (j.cancelRequested <==> j.status.Cancelled?)
  }

  predicate RowOk(t: Tables, j: JobId) {
    j in t.jobs ==> RecordOk(t.jobs[j]) && (t.jobs[j].status.Running? ==> j in t.owners)
  }

  ghost predicate RecordsOk(t: Tables) {
    forall j :: j in t.jobs ==> RowOk(t, j)
  }

  predicate OwnerOk(t: Tables, j: JobId) {
    j in t.owners ==> j in t.jobs && 1 <= t.owners[j].attempt <= I64_MAX
  }

  predicate LineageOk(t: Tables, j: JobId) {
    j in t.lineage ==> j in t.jobs && t.lineage[j].rule in t.rules
  }

  predicate KeysDiffer(t: Tables, i: JobId, j: JobId) {
    i in t.jobs && j in t.jobs && i != j && t.jobs[i].key.Some? ==> t.jobs[i].key != t.jobs[j].key
  }

  /** Foreign keys and the unique idempotency key. */
  ghost predicate LinksOk(t: Tables) {
    && (forall j :: OwnerOk(t, j))
    && (forall j :: LineageOk(t, j))
    && (forall i, j :: KeysDiffer(t, i, j))
  }

  /** What callers pass: fresh row ids, and a finish that asks for `cancelled` exactly when
      it read the cancel flag. */
  predicate WellCalled(t: Tables, s: Stmt) {
    match s
    case Finish(_, _, _, status, _, _, cancelRequested) =>
      status.Terminal() && (status.Cancelled? <==> cancelRequested)
    case CreateJob(job, _, _) => job !in t.jobs
    case EnqueueRule(_, _, _, job, _, _) => job !in t.jobs
    case CreateRule(rule, _, _) => rule !in t.rules
    case _ => true
  }

  lemma ExecKeepsRow(t: Tables, s: Stmt, j: JobId)
    requires RowOk(t, j) && WellCalled(t, s)
    ensures RowOk(Exec(t, s), j)
  {
  }

  /** Every statement keeps the record invariant of every row. */
  lemma ExecKeepsRecords(t: Tables, s: Stmt)
    requires RecordsOk(t) && WellCalled(t, s)
    ensures RecordsOk(Exec(t, s))
  {
    forall j | j in Exec(t, s).jobs ensures RowOk(Exec(t, s), j) {
      ExecKeepsRow(t, s, j);
    }
  }

  lemma ExecStatus(t: Tables, s: Stmt, j: JobId)
    requires WellCalled(t, s) && j in t.jobs
    ensures j in Exec(t, s).jobs
    ensures var a, b := t.jobs[j].status, Exec(t, s).jobs[j].status;
            a == b || a.CanTransitionTo(b) ||
            (a.Running? && b.Pending? && s.RecoverPending? && Abandoned(t.jobs[j], s.now))
  {
  }

  /** Only a retry can undo a cancel. */
  lemma ExecKeepsCancel(t: Tables, s: Stmt, j: JobId)
    requires WellCalled(t, s) && CancelStands(t, j) && !(s.Retry? && s.job == j)
    ensures CancelStands(Exec(t, s), j)
  {
  }

  lemma ExecKeepsLink(t: Tables, s: Stmt, j: JobId)
    requires OwnerOk(t, j) && LineageOk(t, j) && WellCalled(t, s)
    ensures OwnerOk(Exec(t, s), j) && LineageOk(Exec(t, s), j)
  {
  }

  lemma ExecKeepsKeys(t: Tables, s: Stmt, i: JobId, j: JobId)
    requires KeysDiffer(t, i, j) && WellCalled(t, s)
    ensures KeysDiffer(Exec(t, s), i, j)
  {
  }

  /** Every statement keeps the foreign keys and the uniqueness of idempotency keys. */
  lemma ExecKeepsLinks(t: Tables, s: Stmt)
    requires LinksOk(t) && WellCalled(t, s)
    ensures LinksOk(Exec(t, s))
  {
    forall j ensures OwnerOk(Exec(t, s), j) && LineageOk(Exec(t, s), j) {
      ExecKeepsLink(t, s, j);
    }
    forall i, j ensures KeysDiffer(Exec(t, s), i, j) {
      ExecKeepsKeys(t, s, i, j);
    }
  }
}
